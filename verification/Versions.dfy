/** Dotted version arithmetic of document-service (typologies.service.ts, document-upload.service.ts). */
module Versions {
  import opened Wrappers
  import opened Text

  /** Ignores one leading v or V. */
  function StripV(s: string): string {
    if s != [] && s[0] in {'v', 'V'} then s[1..] else s
  }

  /** The text is numerals separated by single dots. */
  predicate IsDotted(s: string) {
    forall i :: 0 <= i < |Split(s, '.')| ==> IsNumeral(Split(s, '.')[i])
  }

  /** The numeric segments of a dotted version, if it is one (parseDottedVersion). */
  function Parse(v: string): Option<seq<nat>> {
    var n := StripV(v);
    if !IsDotted(n) then None
    else
      var parts := Split(n, '.');
      Some(seq(|parts|, i requires 0 <= i < |parts| => Value(parts[i])))
  }

  /** Segment `i` of a version; missing trailing segments are 0. */
  function Seg(v: seq<nat>, i: nat): nat {
    if i < |v| then v[i] else 0
  }

  ghost predicate SameNumbers(a: seq<nat>, b: seq<nat>) {
    forall i: nat :: Seg(a, i) == Seg(b, i)
  }

  /** What versionsEqual decides on two texts. */
  ghost predicate SameVersion(a: string, b: string) {
    match (Parse(Trim(a)), Parse(Trim(b)))
    case (Some(x), Some(y)) => SameNumbers(x, y)
    case _ => Trim(a) == Trim(b)
  }

  ghost predicate SameOptional(a: Option<string>, b: Option<string>) {
    match (a, b)
    case (None, None) => true
    case (Some(x), Some(y)) => SameVersion(x, y)
    case _ => false
  }

  /** The first difference is +1 and every later segment of the new version is 0. */
  ghost predicate BumpsAt(nv: seq<nat>, ov: seq<nat>, i: nat) {
    && (forall j: nat :: j < i ==> Seg(nv, j) == Seg(ov, j))
    && Seg(nv, i) == Seg(ov, i) + 1
    && (forall j: nat :: j > i ==> Seg(nv, j) == 0)
  }

  ghost predicate OneIncrement(newVer: string, oldVer: string) {
    && Parse(newVer).Some? && Parse(oldVer).Some?
    && exists i: nat :: BumpsAt(Parse(newVer).value, Parse(oldVer).value, i)
  }

  /** Lexicographic order on zero-padded segments. */
  ghost predicate Less(a: seq<nat>, b: seq<nat>) {
    exists i: nat :: LessAt(a, b, i)
  }

  ghost predicate LessAt(a: seq<nat>, b: seq<nat>, i: nat) {
    Seg(a, i) < Seg(b, i) && forall j: nat :: j < i ==> Seg(a, j) == Seg(b, j)
  }

  // What a version text says

  /** The parts are numerals with these values. */
  ghost predicate Denote(parts: seq<string>, numbers: seq<nat>) {
    && |parts| == |numbers| > 0
    && forall i :: 0 <= i < |parts| ==> IsNumeral(parts[i]) && Value(parts[i]) == numbers[i]
  }

  /** Numerals joined by dots, perhaps behind one v or V, and nothing else, are the versions with numbers. */
  lemma ParseExactly(v: string, numbers: seq<nat>)
    ensures Parse(v) == Some(numbers) <==>
              exists parts: seq<string> | Denote(parts, numbers) ::
                v == Join(parts, '.') || v == "v" + Join(parts, '.') || v == "V" + Join(parts, '.')
  {
    if Parse(v) == Some(numbers) {
      JoinSplit(StripV(v), '.');
      assert Denote(Split(StripV(v), '.'), numbers);
      if StripV(v) != v {
        assert v == [v[0]] + StripV(v) && (v[0] == 'v' || v[0] == 'V');
      }
    }
    forall parts: seq<string> | Denote(parts, numbers)
      && (v == Join(parts, '.') || v == "v" + Join(parts, '.') || v == "V" + Join(parts, '.'))
      ensures Parse(v) == Some(numbers)
    {
      NumeralsParse(parts, numbers);
      StripPrefix(Join(parts, '.'));
    }
  }

  lemma NumeralsParse(parts: seq<string>, numbers: seq<nat>)
    requires Denote(parts, numbers)
    ensures var text := Join(parts, '.'); text != [] && IsDigit(text[0]) && Parse(text) == Some(numbers)
  {
    forall i | 0 <= i < |parts| ensures '.' !in parts[i] {
      assert IsNumeral(parts[i]);
    }
    SplitJoin(parts, '.');
    var text := Join(parts, '.');
    assert IsNumeral(parts[0]) && parts[0] <= text;
    assert text[0] == parts[0][0] && StripV(text) == text;
    assert Parse(text).value == numbers;
  }

  /** In front of a digit one v or V makes no difference. */
  lemma StripPrefix(text: string)
    requires text != [] && IsDigit(text[0])
    ensures StripV("v" + text) == text && StripV("V" + text) == text && StripV(text) == text
  {
  }

  lemma LeadingVIsIgnored(text: string)
    requires text != [] && IsDigit(text[0]) && Parse(text).Some?
    ensures SameVersion("v" + text, text) && SameVersion("V" + text, text)
  {
    ParsedIsTrimmed(text);
    StripPrefix(text);
    ParsedIsTrimmed("v" + text);
    ParsedIsTrimmed("V" + text);
    TrimmedIsFixed(text);
    TrimmedIsFixed("v" + text);
    TrimmedIsFixed("V" + text);
  }

  /** Two numbered versions are the same if one continues the other with zeros only. */
  lemma SameUpToZeros(a: seq<nat>, b: seq<nat>)
    requires |a| <= |b|
    ensures SameNumbers(a, b) <==> b == a + seq(|b| - |a|, i => 0)
  {
    if SameNumbers(a, b) {
      forall i | 0 <= i < |b| ensures b[i] == (a + seq(|b| - |a|, i => 0))[i] {
        assert Seg(a, i) == Seg(b, i);
      }
    } else {
      assert b == a + seq(|b| - |a|, i => 0) ==> SameNumbers(a, b);
    }
  }

  /** The version after `v` at segment i: counted up there, cut off behind. */
  ghost function Bumped(v: seq<nat>, i: nat): seq<nat> {
    seq(i + 1, j requires 0 <= j <= i => if j < i then Seg(v, j) else Seg(v, i) + 1)
  }

  /** The accepted increments of a version are exactly those, one for each segment, up to trailing zeros. */
  lemma IncrementsExactly(newVer: string, oldVer: string)
    requires Parse(newVer).Some? && Parse(oldVer).Some?
    ensures OneIncrement(newVer, oldVer) <==>
              exists i: nat :: SameNumbers(Parse(newVer).value, Bumped(Parse(oldVer).value, i))
  {
    var nv, ov := Parse(newVer).value, Parse(oldVer).value;
    forall i: nat ensures BumpsAt(nv, ov, i) <==> SameNumbers(nv, Bumped(ov, i)) {
      var b := Bumped(ov, i);
      assert forall j: nat :: Seg(b, j) == if j < i then Seg(ov, j) else if j == i then Seg(ov, i) + 1 else 0;
    }
  }

  // The two comparisons as the service performs them

  method VersionsEqual(a: Option<string>, b: Option<string>) returns (r: bool)
    ensures r <==> SameOptional(a, b)
  {
    if a == b {
      return true;
    }
    if a.None? || b.None? {
      return false;
    }
    var ta, tb := Trim(a.value), Trim(b.value);
    var na, nb := StripV(ta), StripV(tb);
    if !IsDotted(na) || !IsDotted(nb) {
      return ta == tb;
    }
    var av, bv := Split(na, '.'), Split(nb, '.');
    var len := if |av| < |bv| then |bv| else |av|;
    var i := 0;
    while i < len
      invariant 0 <= i <= len
      invariant forall j: nat :: j < i ==> Seg(Parse(ta).value, j) == Seg(Parse(tb).value, j)
    {
      SegmentsAgree(ta, tb, i);
      if Padded(av, i) != Padded(bv, i) {
        return false;
      }
      i := i + 1;
    }
    return true;
  }

  /** The compared text of segment `i`: without leading zeros, "0" when missing. */
  function Padded(parts: seq<string>, i: nat): string {
    if i < |parts| then StripZeros(parts[i]) else "0"
  }

  lemma PaddedIsSegment(t: string, i: nat)
    requires Parse(t).Some?
    ensures var text := Padded(Split(StripV(t), '.'), i); Canonical(text) && Value(text) == Seg(Parse(t).value, i)
  {
    var parts := Split(StripV(t), '.');
    if i < |parts| {
      StripZerosCanonical(parts[i]);
    } else {
      assert Value("0") == Value("0"[..0]) * 10 + Digit('0');
    }
  }

  /** Comparing the stripped texts of two segments compares their numbers. */
  lemma SegmentsAgree(ta: string, tb: string, i: nat)
    requires Parse(ta).Some? && Parse(tb).Some?
    ensures Padded(Split(StripV(ta), '.'), i) == Padded(Split(StripV(tb), '.'), i)
            <==> Seg(Parse(ta).value, i) == Seg(Parse(tb).value, i)
  {
    PaddedIsSegment(ta, i);
    PaddedIsSegment(tb, i);
    if Seg(Parse(ta).value, i) == Seg(Parse(tb).value, i) {
      CanonicalIsUnique(Padded(Split(StripV(ta), '.'), i), Padded(Split(StripV(tb), '.'), i));
    }
  }

  method IsExactlyOneIncrement(newVer: string, oldVer: string) returns (r: bool)
    ensures r <==> OneIncrement(newVer, oldVer)
  {
    var pn, po := Parse(newVer), Parse(oldVer);
    if pn.None? || po.None? {
      return false;
    }
    var nv, ov := pn.value, po.value;
    var len := if |nv| < |ov| then |ov| else |nv|;
    while |nv| < len
      invariant |nv| <= len && SameNumbers(nv, pn.value)
    {
      nv := nv + [0];
    }
    while |ov| < len
      invariant |ov| <= len && SameNumbers(ov, po.value)
    {
      ov := ov + [0];
    }
    var diff := FirstDifference(nv, ov);
    PaddingKeepsBump(nv, pn.value, ov, po.value);
    if diff == len {
      assert forall j: nat :: Seg(nv, j) == Seg(ov, j);
      return false;
    }
    BumpIsAtDifference(nv, ov, diff);
    if nv[diff] != ov[diff] + 1 {
      return false;
    }
    r := ZeroFrom(nv, diff + 1);
    assert r <==> BumpsAt(nv, ov, diff);
  }

  /** The first index at which two padded versions differ, or their length. */
  method FirstDifference(nv: seq<nat>, ov: seq<nat>) returns (diff: nat)
    requires |nv| == |ov|
    ensures diff <= |nv| && (diff < |nv| ==> nv[diff] != ov[diff])
    ensures forall j: nat :: j < diff ==> Seg(nv, j) == Seg(ov, j)
  {
    diff := 0;
    while diff < |nv| && nv[diff] == ov[diff]
      invariant 0 <= diff <= |nv|
      invariant forall j: nat :: j < diff ==> Seg(nv, j) == Seg(ov, j)
    {
      diff := diff + 1;
    }
  }

  method ZeroFrom(nv: seq<nat>, start: nat) returns (r: bool)
    ensures r <==> forall j: nat :: j >= start ==> Seg(nv, j) == 0
  {
    var i := start;
    while i < |nv|
      invariant start <= i
      invariant forall j: nat :: start <= j < i ==> Seg(nv, j) == 0
    {
      if nv[i] != 0 {
        assert Seg(nv, i) != 0;
        return false;
      }
      i := i + 1;
    }
    return true;
  }

  lemma PaddingKeepsBump(nv: seq<nat>, nv': seq<nat>, ov: seq<nat>, ov': seq<nat>)
    requires SameNumbers(nv, nv') && SameNumbers(ov, ov')
    ensures forall i: nat :: BumpsAt(nv, ov, i) <==> BumpsAt(nv', ov', i)
  {
  }

  lemma BumpIsAtDifference(nv: seq<nat>, ov: seq<nat>, diff: nat)
    requires forall j: nat :: j < diff ==> Seg(nv, j) == Seg(ov, j)
    requires Seg(nv, diff) != Seg(ov, diff)
    ensures forall i: nat :: BumpsAt(nv, ov, i) ==> i == diff
  {
  }

  // Their laws

  /** versionsEqual is an equivalence relation, on all texts. */
  lemma SameVersionIsEquivalence(a: string, b: string, c: string)
    ensures SameVersion(a, a)
    ensures SameVersion(a, b) ==> SameVersion(b, a)
    ensures SameVersion(a, b) && SameVersion(b, c) ==> SameVersion(a, c)
  {
  }

  /** Accepting a bump does not depend on how either version is written, once trimmed. */
  lemma BumpRespectsSameVersion(n: string, n': string, o: string, o': string)
    requires Trimmed(n) && Trimmed(n') && Trimmed(o) && Trimmed(o')
    requires SameVersion(n, n') && SameVersion(o, o')
    ensures OneIncrement(n, o) <==> OneIncrement(n', o')
  {
    TrimmedIsFixed(n);
    TrimmedIsFixed(n');
    TrimmedIsFixed(o);
    TrimmedIsFixed(o');
    if Parse(n).Some? && Parse(n').Some? && Parse(o).Some? && Parse(o').Some? {
      PaddingKeepsBump(Parse(n).value, Parse(n').value, Parse(o).value, Parse(o').value);
    }
  }

  lemma BumpIncreases(nv: seq<nat>, ov: seq<nat>, i: nat)
    requires BumpsAt(nv, ov, i)
    ensures Less(ov, nv)
  {
    assert LessAt(ov, nv, i);
  }

  lemma LessIsTransitive(a: seq<nat>, b: seq<nat>, c: seq<nat>)
    requires Less(a, b) && Less(b, c)
    ensures Less(a, c)
  {
    var i: nat :| LessAt(a, b, i);
    var j: nat :| LessAt(b, c, j);
    assert LessAt(a, c, if i < j then i else j);
  }

  lemma LessIsNotSame(a: seq<nat>, b: seq<nat>)
    requires Less(a, b)
    ensures !SameNumbers(a, b)
  {
  }

  /** Each version of a chain is an accepted bump of the one before. */
  ghost predicate Chain(vs: seq<string>) {
    forall i :: 0 < i < |vs| ==> OneIncrement(vs[i], vs[i - 1])
  }

  lemma {:induction false} ChainIncreases(vs: seq<string>, i: nat, j: nat)
    requires Chain(vs) && i < j < |vs|
    ensures Parse(vs[i]).Some? && Parse(vs[j]).Some? && Less(Parse(vs[i]).value, Parse(vs[j]).value)
    decreases j
  {
    assert OneIncrement(vs[j], vs[j - 1]);
    var k: nat :| BumpsAt(Parse(vs[j]).value, Parse(vs[j - 1]).value, k);
    BumpIncreases(Parse(vs[j]).value, Parse(vs[j - 1]).value, k);
    if i < j - 1 {
      ChainIncreases(vs, i, j - 1);
      LessIsTransitive(Parse(vs[i]).value, Parse(vs[j - 1]).value, Parse(vs[j]).value);
    }
  }

  lemma {:induction false} SplitEnds(s: string, sep: char)
    requires s != []
    ensures var r := Split(s, sep);
            && (s[0] == sep ==> r[0] == []) && (s[0] != sep ==> r[0] != [] && r[0][0] == s[0])
            && var last := r[|r| - 1];
               && (s[|s| - 1] == sep ==> last == [])
               && (s[|s| - 1] != sep ==> last != [] && last[|last| - 1] == s[|s| - 1])
  {
    if |s| > 1 {
      SplitEnds(s[1..], sep);
    } else {
      assert s[1..] == [];
    }
  }

  /** A text that parses has no white space around it. */
  lemma ParsedIsTrimmed(v: string)
    requires Parse(v).Some?
    ensures Trimmed(v) && Trim(v) == v
  {
    var n := StripV(v);
    assert IsNumeral(Split(n, '.')[0]);
    SplitEnds(n, '.');
    TrimmedIsFixed(v);
  }

  /** No chain of accepted bumps comes back to a version it already had. */
  lemma ChainNeverRevisits(vs: seq<string>, i: nat, j: nat)
    requires Chain(vs) && i < j < |vs|
    ensures !SameVersion(vs[i], vs[j])
  {
    ChainIncreases(vs, i, j);
    LessIsNotSame(Parse(vs[i]).value, Parse(vs[j]).value);
    ParsedIsTrimmed(vs[i]);
    ParsedIsTrimmed(vs[j]);
  }

  /** The increment test does not trim; a text with white space around it is no increment and has none. */
  lemma BumpOnAnyTexts(n: string, o: string)
    ensures OneIncrement(n, o) <==> Trimmed(n) && Trimmed(o) && OneIncrement(Trim(n), Trim(o))
  {
    if OneIncrement(n, o) {
      ParsedIsTrimmed(n);
      ParsedIsTrimmed(o);
    }
    if Trimmed(n) && Trimmed(o) {
      TrimmedIsFixed(n);
      TrimmedIsFixed(o);
    }
  }

  /** So rewriting either version keeps the answer exactly when the new texts are trimmed as well, or it was no. */
  lemma BumpRespectsSameVersionExactly(n: string, n': string, o: string, o': string)
    requires Trimmed(n) && Trimmed(o) && SameVersion(n, n') && SameVersion(o, o')
    ensures (OneIncrement(n, o) <==> OneIncrement(n', o'))
            <==> !OneIncrement(n, o) || (Trimmed(n') && Trimmed(o'))
  {
    TrimIsTrimmed(n');
    TrimIsTrimmed(o');
    TrimmedIsFixed(n);
    TrimmedIsFixed(o);
    assert SameVersion(n, Trim(n')) && SameVersion(o, Trim(o'));
    BumpRespectsSameVersion(n, Trim(n'), o, Trim(o'));
    BumpOnAnyTexts(n', o');
  }
}
