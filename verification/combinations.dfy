/**
 * The combinatorics of the prototype selector (src/prototype.py): the number
 * of word combinations, the combinations themselves in `itertools.product`
 * order (first slot slowest, last slot fastest), and the duplicate-word test
 * `len(set(combo)) < len(combo)`.
 */
module Combinations {

  /* ---- Counting ---- */

  /** `total_combos`: the product of the alternative-list lengths, folded left to right. */
  function CombinationCount(alts: seq<seq<string>>): nat
  {
    if |alts| == 0 then 1 else CombinationCount(alts[..|alts| - 1]) * |alts[|alts| - 1]|
  }

  /** The loop that multiplies up `total_combos`. */
  method CountCombinations(alts: seq<seq<string>>) returns (total: nat)
    ensures total == CombinationCount(alts)
  {
    total := 1;
    for i := 0 to |alts|
      invariant total == CombinationCount(alts[..i])
    {
      assert alts[..i + 1][..i] == alts[..i];
      total := total * |alts[i]|;
    }
    assert alts[..|alts|] == alts;
  }

  /** The count splits off the first slot as well as the last. */
  lemma {:induction false} CountFirstSlot(alts: seq<seq<string>>)
    requires |alts| > 0
    ensures CombinationCount(alts) == |alts[0]| * CombinationCount(alts[1..])
  {
    var n := |alts|;
    if n > 1 {
      var init := alts[..n - 1];
      CountFirstSlot(init);
      var a, b, c := |alts[0]|, CombinationCount(init[1..]), |alts[n - 1]|;
      assert CombinationCount(alts) == CombinationCount(init) * c;
      assert init[1..] == alts[1..][..n - 2] && alts[1..][n - 2] == alts[n - 1];
      assert CombinationCount(alts[1..]) == b * c;
      MulAssoc(a, b, c);
    } else {
      assert alts[..0] == alts[1..];
    }
  }

  lemma MulAssoc(a: nat, b: nat, c: nat)
    ensures (a * b) * c == a * (b * c)
  {
  }

  /* ---- The product ---- */

  /** Every combination of `tail` with `w` put in front. */
  function Prepend(w: string, tail: seq<seq<string>>): (r: seq<seq<string>>)
    ensures |r| == |tail| && forall i :: 0 <= i < |r| ==> r[i] == [w] + tail[i]
  {
    seq(|tail|, i requires 0 <= i < |tail| => [w] + tail[i])
  }

  /** For each word of `ws` in turn, every combination of `tail` with that word in front. */
  function Branches(ws: seq<string>, tail: seq<seq<string>>): seq<seq<string>>
  {
    if |ws| == 0 then [] else Prepend(ws[0], tail) + Branches(ws[1..], tail)
  }

  /** `itertools.product(*alts)`: all combinations, the first slot varying slowest. */
  function Product(alts: seq<seq<string>>): seq<seq<string>>
  {
    if |alts| == 0 then [[]] else Branches(alts[0], Product(alts[1..]))
  }

  lemma {:induction false} BranchesSize(ws: seq<string>, tail: seq<seq<string>>)
    ensures |Branches(ws, tail)| == |ws| * |tail|
  {
    if |ws| > 0 {
      BranchesSize(ws[1..], tail);
      assert |ws| * |tail| == |tail| + (|ws| - 1) * |tail|;
    }
  }

  /** There are as many combinations as `total_combos` counts. */
  lemma {:induction false} ProductSize(alts: seq<seq<string>>)
    ensures |Product(alts)| == CombinationCount(alts)
  {
    if |alts| > 0 {
      ProductSize(alts[1..]);
      BranchesSize(alts[0], Product(alts[1..]));
      CountFirstSlot(alts);
    } else {
      assert |Product(alts)| == 1;
    }
  }

  /** Word k of `ws` heads the k-th block of `|tail|` combinations. */
  lemma {:induction false} BranchesIndex(ws: seq<string>, tail: seq<seq<string>>, k: nat, m: nat)
    requires k < |ws| && m < |tail|
    ensures k * |tail| + m < |Branches(ws, tail)|
    ensures Branches(ws, tail)[k * |tail| + m] == [ws[k]] + tail[m]
  {
    var front, rest := Prepend(ws[0], tail), Branches(ws[1..], tail);
    assert Branches(ws, tail) == front + rest;
    if k > 0 {
      BranchesIndex(ws[1..], tail, k - 1, m);
      var j := (k - 1) * |tail| + m;
      BlockStep(k, |tail|, m);
      assert (front + rest)[|tail| + j] == rest[j];
    }
  }

  /** Block k starts one block after block k - 1. */
  lemma BlockStep(k: nat, t: nat, m: nat)
    requires k > 0
    ensures k * t + m == t + ((k - 1) * t + m)
  {
  }

  /**
   * The order of `itertools.product`: the combination at index
   * k * (combinations of the later slots) + m takes alternative k of the
   * first slot and then later-slot combination m.
   */
  lemma ProductOrder(alts: seq<seq<string>>, k: nat, m: nat)
    requires |alts| > 0 && k < |alts[0]| && m < CombinationCount(alts[1..])
    ensures |Product(alts[1..])| == CombinationCount(alts[1..])
    ensures k * CombinationCount(alts[1..]) + m < |Product(alts)|
    ensures Product(alts)[k * CombinationCount(alts[1..]) + m] == [alts[0][k]] + Product(alts[1..])[m]
  {
    ProductSize(alts[1..]);
    BranchesIndex(alts[0], Product(alts[1..]), k, m);
  }

  /** A member of `Branches` is a word of `ws` in front of a member of `tail`, and every such one is a member. */
  lemma {:induction false} BranchesMembers(ws: seq<string>, tail: seq<seq<string>>, c: seq<string>)
    ensures c in Branches(ws, tail) <==> |c| > 0 && c[0] in ws && c[1..] in tail
  {
    if |ws| > 0 {
      BranchesMembers(ws[1..], tail, c);
      var front := Prepend(ws[0], tail);
      if c in front {
        var i :| 0 <= i < |front| && front[i] == c;
        assert c[1..] == tail[i];
      }
      if |c| > 0 && c[0] == ws[0] && c[1..] in tail {
        var i :| 0 <= i < |tail| && tail[i] == c[1..];
        assert front[i] == c;
      }
      assert |c| > 0 ==> (c[0] in ws <==> c[0] == ws[0] || c[0] in ws[1..]);
    }
  }

  /**
   * The combinations are exactly the sequences that pick, for every slot,
   * one of that slot's alternatives.
   */
  lemma {:induction false} ProductMembers(alts: seq<seq<string>>, c: seq<string>)
    ensures c in Product(alts) <==> |c| == |alts| && forall j :: 0 <= j < |c| ==> c[j] in alts[j]
  {
    if |alts| > 0 && |c| == 0 {
      BranchesMembers(alts[0], Product(alts[1..]), c);
    } else if |alts| > 0 {
      ProductMembers(alts[1..], c[1..]);
      BranchesMembers(alts[0], Product(alts[1..]), c);
      if |c| == |alts| && forall j :: 0 <= j < |c| ==> c[j] in alts[j] {
        assert forall j :: 0 <= j < |c[1..]| ==> c[1..][j] == c[j + 1];
      }
      if c in Product(alts) {
        forall j | 0 <= j < |c| ensures c[j] in alts[j] {
          if j > 0 {
            assert c[j] == c[1..][j - 1];
          }
        }
      }
    } else {
      assert c in Product(alts) <==> c == [];
    }
  }

  /* ---- Duplicate words ---- */

  /** `set(combo)`. */
  function Elements(c: seq<string>): set<string>
  {
    if |c| == 0 then {} else Elements(c[..|c| - 1]) + {c[|c| - 1]}
  }

  /** `len(set(combo)) < len(combo)`: some word occurs twice. */
  predicate HasDuplicate(c: seq<string>)
  {
    |Elements(c)| < |c|
  }

  /** No word occurs twice. */
  predicate Distinct(c: seq<string>)
  {
    forall i, j :: 0 <= i < j < |c| ==> c[i] != c[j]
  }

  lemma {:induction false} ElementsAreMembers(c: seq<string>)
    ensures forall w :: w in Elements(c) <==> w in c
  {
    if |c| > 0 {
      ElementsAreMembers(c[..|c| - 1]);
      assert c == c[..|c| - 1] + [c[|c| - 1]];
    }
  }

  lemma {:induction false} ElementsCount(c: seq<string>)
    ensures |Elements(c)| <= |c|
    ensures |Elements(c)| == |c| <==> Distinct(c)
  {
    if |c| > 0 {
      var p, x := c[..|c| - 1], c[|c| - 1];
      ElementsCount(p);
      ElementsAreMembers(p);
      DistinctSnoc(p, x);
      assert c == p + [x];
      if x in p {
        assert Elements(c) == Elements(p);
      } else {
        assert |Elements(p) + {x}| == |Elements(p)| + 1;
      }
    }
  }

  /** Appending a word keeps the words distinct exactly when it is new and they were distinct. */
  lemma DistinctSnoc(p: seq<string>, x: string)
    ensures Distinct(p + [x]) <==> Distinct(p) && x !in p
  {
    var c := p + [x];
    if x in p {
      var i :| 0 <= i < |p| && p[i] == x;
      assert c[i] == c[|p|];
    }
    if Distinct(c) {
      forall i, j | 0 <= i < j < |p| ensures p[i] != p[j] {
        assert c[i] == p[i] && c[j] == p[j];
      }
    }
  }

  /** The set-size test detects exactly the combinations that repeat a word. */
  lemma DuplicateIff(c: seq<string>)
    ensures HasDuplicate(c) <==> exists i, j :: 0 <= i < j < |c| && c[i] == c[j]
  {
    ElementsCount(c);
  }
}
