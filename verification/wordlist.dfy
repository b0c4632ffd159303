/**
 * The word-list loader `load_wordlist` (src/io.py), over the file's lines:
 * each non-blank line is split at its first comma into a word and a hint,
 * the word is upper-cased and stripped to A–Z, words shorter than two
 * letters are dropped, and only the first entry for each word is kept.
 */
module WordList {
  import opened Wrappers
  import opened Puzzles

  /* ---- String helpers ---- */

  /** The characters Python's `str.isspace` accepts, which `str.strip()` removes. */
  predicate IsSpace(c: char)
  {
    c == ' ' || '\t' <= c <= '\r' || '\U{1c}' <= c <= '\U{1f}' || c == '\U{85}' || c == '\U{a0}'
    || c == '\U{1680}' || '\U{2000}' <= c <= '\U{200a}' || c == '\U{2028}' || c == '\U{2029}'
    || c == '\U{202f}' || c == '\U{205f}' || c == '\U{3000}'
  }

  /** `s.lstrip()`. */
  function StripStart(s: string): string
  {
    if |s| > 0 && IsSpace(s[0]) then StripStart(s[1..]) else s
  }

  /** `s.rstrip()`. */
  function StripEnd(s: string): string
  {
    if |s| > 0 && IsSpace(s[|s| - 1]) then StripEnd(s[..|s| - 1]) else s
  }

  /** `s.strip()`. */
  function Strip(s: string): string
  {
    StripEnd(StripStart(s))
  }

  /** `lstrip` removes the run of leading whitespace and nothing more. */
  lemma {:induction false} StripStartFacts(s: string)
    ensures |StripStart(s)| <= |s| && StripStart(s) == s[|s| - |StripStart(s)|..]
    ensures |StripStart(s)| > 0 ==> !IsSpace(StripStart(s)[0])
    ensures forall i :: 0 <= i < |s| - |StripStart(s)| ==> IsSpace(s[i])
  {
    if |s| > 0 && IsSpace(s[0]) {
      StripStartFacts(s[1..]);
    }
  }

  /** `rstrip` removes the run of trailing whitespace and nothing more. */
  lemma {:induction false} StripEndFacts(s: string)
    ensures |StripEnd(s)| <= |s| && StripEnd(s) == s[..|StripEnd(s)|]
    ensures |StripEnd(s)| > 0 ==> !IsSpace(StripEnd(s)[|StripEnd(s)| - 1])
    ensures forall i :: |StripEnd(s)| <= i < |s| ==> IsSpace(s[i])
  {
    if |s| > 0 && IsSpace(s[|s| - 1]) {
      StripEndFacts(s[..|s| - 1]);
    }
  }

  /**
   * `s.strip()` is the infix of `s` left between a run of leading and a run
   * of trailing whitespace, and it neither starts nor ends with whitespace.
   */
  lemma StripIsTrimmedInfix(s: string)
    ensures var r, a := Strip(s), |s| - |StripStart(s)|;
            0 <= a && a + |r| <= |s| && r == s[a..a + |r|]
            && (forall i :: 0 <= i < a ==> IsSpace(s[i]))
            && (forall i :: a + |r| <= i < |s| ==> IsSpace(s[i]))
            && (|r| > 0 ==> !IsSpace(r[0]) && !IsSpace(r[|r| - 1]))
  {
    var t := StripStart(s);
    var r := StripEnd(t);
    var a := |s| - |t|;
    StripStartFacts(s);
    StripEndFacts(t);
    assert r == t[..|r|];
    forall i | a + |r| <= i < |s| ensures IsSpace(s[i]) {
      assert s[i] == t[i - a];
    }
    if |r| > 0 {
      assert r[0] == t[0];
    }
  }

  /** Stripping twice changes nothing more. */
  lemma StripIdempotent(s: string)
    ensures Strip(Strip(s)) == Strip(s)
  {
    var r := Strip(s);
    StripIsTrimmedInfix(s);
    if |r| > 0 {
      assert StripStart(r) == r;
      assert StripEnd(r) == r;
    }
  }

  /**
   * `line.split(",", 1)` for a line with a comma: the part before the first
   * comma and the rest; None when there is no comma.
   */
  function SplitFirstComma(s: string): Option<(string, string)>
  {
    if |s| == 0 then None
    else if s[0] == ',' then Some(([], s[1..]))
    else
      match SplitFirstComma(s[1..])
      case None => None
      case Some(parts) => Some(([s[0]] + parts.0, parts.1))
  }

  /**
   * Splitting at the first comma: there is no split exactly when the line has
   * no comma, and otherwise the line is the comma-free first part, a comma
   * and the rest.
   */
  lemma {:induction false} SplitFirstCommaRoundTrip(s: string)
    ensures SplitFirstComma(s).None? <==> ',' !in s
    ensures SplitFirstComma(s).Some? ==>
              var (w, h) := SplitFirstComma(s).value;
              s == w + [','] + h && ',' !in w
  {
    if |s| > 0 && s[0] != ',' {
      SplitFirstCommaRoundTrip(s[1..]);
      assert s == [s[0]] + s[1..];
      assert ',' in s <==> ',' in s[1..];
    }
  }

  /** A line made of a comma-free part, a comma and a rest splits back into those two parts. */
  lemma {:induction false} SplitAtFirstComma(w: string, h: string)
    requires ',' !in w
    ensures SplitFirstComma(w + [','] + h) == Some((w, h))
  {
    var s := w + [','] + h;
    if |w| > 0 {
      SplitAtFirstComma(w[1..], h);
      assert s[1..] == w[1..] + [','] + h;
      assert [w[0]] + w[1..] == w;
    } else {
      assert s[1..] == h;
    }
  }

  /**
   * The capitals A–Z left of one character by `c.upper()` followed by
   * removing everything outside A–Z: a–z become capitals, and the few other
   * characters whose full upper-case mapping in Unicode 15 contains ASCII
   * capitals (sharp s, dotless i, long s, the Latin ligatures, and letters
   * that upper-case to a capital followed by a combining mark) leave those.
   */
  function Capitals(c: char): string
  {
    if 'A' <= c <= 'Z' then [c]
    else if 'a' <= c <= 'z' then [(c as int - 32) as char]
    else if c == '\U{df}' then "SS"
    else if c == '\U{131}' then "I"
    else if c == '\U{149}' then "N"
    else if c == '\U{17f}' then "S"
    else if c == '\U{1f0}' then "J"
    else if c == '\U{1e96}' then "H"
    else if c == '\U{1e97}' then "T"
    else if c == '\U{1e98}' then "W"
    else if c == '\U{1e99}' then "Y"
    else if c == '\U{1e9a}' then "A"
    else if c == '\U{fb00}' then "FF"
    else if c == '\U{fb01}' then "FI"
    else if c == '\U{fb02}' then "FL"
    else if c == '\U{fb03}' then "FFI"
    else if c == '\U{fb04}' then "FFL"
    else if c == '\U{fb05}' || c == '\U{fb06}' then "ST"
    else []
  }

  /** A character leaves at most three capitals, and nothing but capitals A–Z. */
  lemma CapitalsAreCapitals(c: char)
    ensures |Capitals(c)| <= 3 && forall i :: 0 <= i < |Capitals(c)| ==> 'A' <= Capitals(c)[i] <= 'Z'
  {
  }

  /** `re.sub(r"[^A-Z]", "", w.upper())`, one character at a time. */
  function Normalize(w: string): string
  {
    if |w| == 0 then [] else Capitals(w[0]) + Normalize(w[1..])
  }

  /** Only capitals A–Z come out of normalising. */
  lemma {:induction false} NormalizeCapitals(w: string)
    ensures forall i :: 0 <= i < |Normalize(w)| ==> 'A' <= Normalize(w)[i] <= 'Z'
  {
    if |w| > 0 {
      NormalizeCapitals(w[1..]);
      var head, rest := Capitals(w[0]), Normalize(w[1..]);
      CapitalsAreCapitals(w[0]);
      assert forall i :: |head| <= i < |head + rest| ==> (head + rest)[i] == rest[i - |head|];
    }
  }

  /** Normalising works character by character: it distributes over concatenation. */
  lemma {:induction false} NormalizeConcat(a: string, b: string)
    ensures Normalize(a + b) == Normalize(a) + Normalize(b)
  {
    if |a| > 0 {
      NormalizeConcat(a[1..], b);
      assert (a + b)[1..] == a[1..] + b;
    } else {
      assert a + b == b;
    }
  }

  /** A word already made of capitals A–Z is left as it is. */
  lemma {:induction false} NormalizeKeepsCapitals(w: string)
    requires forall i :: 0 <= i < |w| ==> 'A' <= w[i] <= 'Z'
    ensures Normalize(w) == w
  {
    if |w| > 0 {
      NormalizeKeepsCapitals(w[1..]);
      assert w == [w[0]] + w[1..];
    }
  }

  /** Normalising twice changes nothing more. */
  lemma NormalizeIdempotent(w: string)
    ensures Normalize(Normalize(w)) == Normalize(w)
  {
    NormalizeCapitals(w);
    NormalizeKeepsCapitals(Normalize(w));
  }

  /* ---- One line ---- */

  /**
   * What one line contributes, before the duplicate check: nothing for a
   * blank line, a line without a comma or a word of fewer than two letters;
   * otherwise the normalised word and the stripped hint.
   */
  function ParseLine(line: string): Option<WordEntry>
  {
    var stripped := Strip(line);
    if |stripped| == 0 then None
    else
      match SplitFirstComma(stripped)
      case None => None
      case Some((rawWord, hint)) =>
        var word := Normalize(Strip(rawWord));
        if |word| < 2 then None else Some(WordEntry(word, Strip(hint)))
  }

  /**
   * What a line contributes: nothing when its stripped text has no comma
   * (blank lines included); otherwise, for the stripped text w + "," + h
   * with no comma in w, the normalised stripped w and the stripped h, unless
   * that word has fewer than two letters.
   */
  lemma ParseLineFields(line: string, w: string, h: string)
    ensures ',' !in Strip(line) ==> ParseLine(line).None?
    ensures Strip(line) == w + [','] + h && ',' !in w ==>
              ParseLine(line) == (if |Normalize(Strip(w))| < 2 then None
                                  else Some(WordEntry(Normalize(Strip(w)), Strip(h))))
  {
    SplitFirstCommaRoundTrip(Strip(line));
    if Strip(line) == w + [','] + h && ',' !in w {
      SplitAtFirstComma(w, h);
    }
  }

  /** A parsed line carries a proper word: two or more capitals A–Z. */
  lemma ParsedIsWord(line: string)
    requires ParseLine(line).Some?
    ensures IsWord(ParseLine(line).value.word)
  {
    var (rawWord, hint) := SplitFirstComma(Strip(line)).value;
    NormalizeCapitals(Strip(rawWord));
  }

  /** The body of the line loop up to the duplicate check, with its early `continue`s. */
  method ParseLineSteps(line: string) returns (parsed: Option<WordEntry>)
    ensures parsed == ParseLine(line)
  {
    var stripped := Strip(line);
    if |stripped| == 0 {
      return None;
    }
    var parts := SplitFirstComma(stripped);
    if parts.None? {
      return None;
    }
    var rawWord, hint := Strip(parts.value.0), Strip(parts.value.1);
    var word := Normalize(rawWord);
    if |word| < 2 {
      return None;
    }
    return Some(WordEntry(word, hint));
  }

  /* ---- The loader ---- */

  /** The parse of every line, in file order. */
  function Parses(lines: seq<string>): (ps: seq<Option<WordEntry>>)
    ensures |ps| == |lines| && forall i :: 0 <= i < |lines| ==> ps[i] == ParseLine(lines[i])
  {
    seq(|lines|, i requires 0 <= i < |lines| => ParseLine(lines[i]))
  }

  /** The words of the entries so far: the loader's `seen` set. */
  function Words(entries: seq<WordEntry>): set<string>
  {
    set k | 0 <= k < |entries| :: entries[k].word
  }

  /** Keeps a parsed entry unless its word was seen before. */
  function Keep(prev: seq<WordEntry>, parsed: Option<WordEntry>): seq<WordEntry>
  {
    match parsed
    case None => prev
    case Some(e) => if e.word in Words(prev) then prev else prev + [e]
  }

  /** The duplicate filter over the parsed lines, first occurrence wins. */
  function Dedup(ps: seq<Option<WordEntry>>): seq<WordEntry>
  {
    if |ps| == 0 then [] else Keep(Dedup(ps[..|ps| - 1]), ps[|ps| - 1])
  }

  /** `load_wordlist` over the lines of the file. */
  function Load(lines: seq<string>): seq<WordEntry>
  {
    Dedup(Parses(lines))
  }

  /** Adding an entry adds its word to the seen words. */
  lemma WordsSnoc(es: seq<WordEntry>, e: WordEntry)
    ensures Words(es + [e]) == Words(es) + {e.word}
  {
    var es' := es + [e];
    assert es'[|es|] == e;
    forall w | w in Words(es) ensures w in Words(es') {
      var k :| 0 <= k < |es| && es[k].word == w;
      assert es'[k] == es[k];
    }
  }

  /** The line loop of `load_wordlist`. */
  method LoadWordlist(lines: seq<string>) returns (entries: seq<WordEntry>)
    ensures entries == Load(lines)
  {
    ghost var ps := Parses(lines);
    entries := [];
    var seen: set<string> := {};
    for i := 0 to |lines|
      invariant entries == Dedup(ps[..i])
      invariant seen == Words(entries)
    {
      assert ps[..i + 1] == ps[..i] + [ps[i]];
      entries, seen := LoadLine(entries, seen, lines[i]);
    }
    assert ps[..|lines|] == ps;
  }

  /** One pass of the line loop: parse the line, and keep its entry unless its word was seen. */
  method LoadLine(entries: seq<WordEntry>, seen: set<string>, line: string)
    returns (entries': seq<WordEntry>, seen': set<string>)
    requires seen == Words(entries)
    ensures entries' == Keep(entries, ParseLine(line)) && seen' == Words(entries')
  {
    entries', seen' := entries, seen;
    var parsed := ParseLineSteps(line);
    if parsed.None? {
      return;
    }
    var word := parsed.value.word;
    if word in seen {
      // The source warns about the duplicate on standard error
      return;
    }
    seen' := seen + {word};
    entries' := entries + [parsed.value];
    WordsSnoc(entries, parsed.value);
  }

  /** The kept entries have pairwise distinct words, and each is the entry of some parsed line. */
  lemma {:induction false} DedupDistinct(ps: seq<Option<WordEntry>>)
    ensures forall k :: 0 <= k < |Dedup(ps)| ==> Some(Dedup(ps)[k]) in ps
    ensures forall k, l :: 0 <= k < l < |Dedup(ps)| ==> Dedup(ps)[k].word != Dedup(ps)[l].word
  {
    if |ps| > 0 {
      var init := ps[..|ps| - 1];
      var prev := Dedup(init);
      DedupDistinct(init);
      var es := Dedup(ps);
      assert |prev| <= |es| && es[..|prev|] == prev;
      forall k | 0 <= k < |prev| ensures Some(es[k]) in ps {
        var i :| 0 <= i < |init| && init[i] == Some(prev[k]);
        assert ps[i] == init[i] && es[k] == prev[k];
      }
      if |es| > |prev| {
        var e := ps[|ps| - 1].value;
        assert e.word !in Words(prev) && es[|prev|] == e;
        forall k | 0 <= k < |prev| ensures es[k].word != e.word {
          assert prev[k].word in Words(prev);
        }
      }
    }
  }

  /** The entries are proper words, pairwise distinct. */
  lemma LoadedWordsDistinct(lines: seq<string>)
    ensures var es := Load(lines);
            (forall k :: 0 <= k < |es| ==> IsWord(es[k].word))
            && forall k, l :: 0 <= k < l < |es| ==> es[k].word != es[l].word
  {
    var ps := Parses(lines);
    var es := Dedup(ps);
    DedupDistinct(ps);
    forall k | 0 <= k < |es| ensures IsWord(es[k].word) {
      var i :| 0 <= i < |ps| && ps[i] == Some(es[k]);
      ParsedIsWord(lines[i]);
    }
  }

  /** Entries are only ever appended: filtering a prefix gives a prefix of the entries. */
  lemma {:induction false} DedupAppendOnly(ps: seq<Option<WordEntry>>, m: nat)
    requires m <= |ps|
    ensures Dedup(ps[..m]) <= Dedup(ps)
  {
    if m < |ps| {
      DedupAppendOnly(ps[..|ps| - 1], m);
      assert ps[..|ps| - 1][..m] == ps[..m];
    } else {
      assert ps[..m] == ps;
    }
  }

  /** Every word a line parses to is among the kept words. */
  lemma {:induction false} DedupHasEveryWord(ps: seq<Option<WordEntry>>, i: nat)
    requires i < |ps| && ps[i].Some?
    ensures ps[i].value.word in Words(Dedup(ps))
  {
    var init := ps[..|ps| - 1];
    var prev := Dedup(init);
    if i < |ps| - 1 {
      DedupHasEveryWord(init, i);
      DedupAppendOnly(ps, |ps| - 1);
      var k :| 0 <= k < |prev| && prev[k].word == ps[i].value.word;
      assert Dedup(ps)[k] == prev[k];
    } else if ps[i].value.word !in Words(prev) {
      assert Dedup(ps)[|prev|] == ps[i].value;
    }
  }

  /** Each kept entry is the first parsed entry with its word. */
  lemma {:induction false} DedupKeepsFirst(ps: seq<Option<WordEntry>>, k: nat)
    requires k < |Dedup(ps)|
    ensures exists i :: (0 <= i < |ps| && ps[i] == Some(Dedup(ps)[k])
                         && forall j :: 0 <= j < i && ps[j].Some? ==> ps[j].value.word != Dedup(ps)[k].word)
  {
    var init := ps[..|ps| - 1];
    var prev := Dedup(init);
    var es := Dedup(ps);
    DedupAppendOnly(ps, |ps| - 1);
    assert ps[..|ps| - 1] == init;
    if k < |prev| {
      assert es[k] == prev[k];
      DedupKeepsFirst(init, k);
      var i :| 0 <= i < |init| && init[i] == Some(prev[k])
               && forall j :: 0 <= j < i && init[j].Some? ==> init[j].value.word != prev[k].word;
      forall j | 0 <= j < i && ps[j].Some? ensures ps[j].value.word != es[k].word {
        assert ps[j] == init[j];
      }
      assert ps[i] == init[i];
    } else {
      var e := ps[|ps| - 1].value;
      assert ps[|ps| - 1].Some? && e.word !in Words(prev) && es == prev + [e];
      assert es[k] == e;
      forall j | 0 <= j < |ps| - 1 && ps[j].Some? ensures ps[j].value.word != e.word {
        assert ps[j] == init[j];
        DedupHasEveryWord(init, j);
      }
    }
  }

  /**
   * Every word some line parses to is loaded, and each loaded entry is the
   * parse of the first line giving its word: later lines with the same word
   * are dropped.
   */
  lemma LoadKeepsFirstOccurrence(lines: seq<string>)
    ensures forall i :: 0 <= i < |lines| && ParseLine(lines[i]).Some? ==>
              ParseLine(lines[i]).value.word in Words(Load(lines))
    ensures forall k :: 0 <= k < |Load(lines)| ==>
              exists i :: (0 <= i < |lines| && ParseLine(lines[i]) == Some(Load(lines)[k])
                           && forall j :: 0 <= j < i && ParseLine(lines[j]).Some? ==>
                                ParseLine(lines[j]).value.word != Load(lines)[k].word)
  {
    var ps := Parses(lines);
    var es := Dedup(ps);
    forall i | 0 <= i < |lines| && ParseLine(lines[i]).Some?
      ensures ParseLine(lines[i]).value.word in Words(es)
    {
      DedupHasEveryWord(ps, i);
    }
    forall k | 0 <= k < |es|
      ensures exists i :: (0 <= i < |lines| && ParseLine(lines[i]) == Some(es[k])
                           && forall j :: 0 <= j < i && ParseLine(lines[j]).Some? ==>
                                ParseLine(lines[j]).value.word != es[k].word)
    {
      DedupKeepsFirst(ps, k);
      var i :| 0 <= i < |ps| && ps[i] == Some(es[k])
               && forall j :: 0 <= j < i && ps[j].Some? ==> ps[j].value.word != es[k].word;
      assert ParseLine(lines[i]) == Some(es[k]);
    }
  }

  /** Loading more lines only appends entries: a prefix of the file loads a prefix of the entries. */
  lemma LoadAppendOnly(lines: seq<string>, m: nat)
    requires m <= |lines|
    ensures Load(lines[..m]) <= Load(lines)
  {
    assert Parses(lines[..m]) == Parses(lines)[..m];
    DedupAppendOnly(Parses(lines), m);
  }
}
