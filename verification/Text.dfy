/** The string operations the modules share, on ASCII letters and spaces. */
module Text {

  function LowerChar(c: char): char {
    if 'A' <= c <= 'Z' then (c as int + 32) as char else c
  }

  function ToLower(s: string): string {
    seq(|s|, i requires 0 <= i < |s| => LowerChar(s[i]))
  }

  predicate EqualFold(a: string, b: string) { ToLower(a) == ToLower(b) }

  predicate IsSpace(c: char) { c in " \t\n\r" || c == 11 as char || c == 12 as char }

  function TrimLeft(s: string): string {
    if s != [] && IsSpace(s[0]) then TrimLeft(s[1..]) else s
  }

  function TrimRight(s: string): string {
    if s != [] && IsSpace(s[|s| - 1]) then TrimRight(s[..|s| - 1]) else s
  }

  function TrimSpace(s: string): string { TrimRight(TrimLeft(s)) }

  /** Equal up to letter case: character by character the same, or the two cases of one letter. */
  lemma {:induction false} EqualFoldIffSameLetters(a: string, b: string)
    ensures EqualFold(a, b) <==> |a| == |b| && forall i | 0 <= i < |a| :: SameLetter(a[i], b[i])
  {
    if EqualFold(a, b) {
      forall i | 0 <= i < |a| ensures SameLetter(a[i], b[i]) {
        assert ToLower(a)[i] == ToLower(b)[i];
      }
    }
    if |a| == |b| && forall i | 0 <= i < |a| :: SameLetter(a[i], b[i]) {
      forall i | 0 <= i < |a| ensures ToLower(a)[i] == ToLower(b)[i] {
        assert SameLetter(a[i], b[i]);
      }
      assert ToLower(a) == ToLower(b);
    }
  }

  predicate SameLetter(c: char, d: char) {
    || c == d
    || ('A' <= c <= 'Z' && d as int - 'a' as int == c as int - 'A' as int)
    || ('A' <= d <= 'Z' && c as int - 'a' as int == d as int - 'A' as int)
  }

  /** Lowering leaves no capital letter and changes nothing but capital letters. */
  lemma {:induction false} LoweredHasNoCapitals(s: string)
    ensures |ToLower(s)| == |s|
    ensures forall i | 0 <= i < |s| :: !('A' <= ToLower(s)[i] <= 'Z') && SameLetter(s[i], ToLower(s)[i])
    ensures forall i | 0 <= i < |s| && !('A' <= s[i] <= 'Z') :: ToLower(s)[i] == s[i]
  {
  }

  /** What is trimmed off on either side is space, and what is left begins and ends with none. */
  ghost predicate IsTrimOf(s: string, t: string, before: string, after: string) {
    && s == before + t + after
    && (forall i | 0 <= i < |before| :: IsSpace(before[i]))
    && (forall i | 0 <= i < |after| :: IsSpace(after[i]))
    && (t != "" ==> !IsSpace(t[0]) && !IsSpace(t[|t| - 1]))
  }

  lemma {:induction false} TrimLeftTakesSpace(s: string) returns (before: string)
    ensures s == before + TrimLeft(s) && forall i | 0 <= i < |before| :: IsSpace(before[i])
    ensures TrimLeft(s) != "" ==> !IsSpace(TrimLeft(s)[0])
  {
    if s != [] && IsSpace(s[0]) {
      var more := TrimLeftTakesSpace(s[1..]);
      before := [s[0]] + more;
      assert s == [s[0]] + s[1..];
    } else {
      before := [];
    }
  }

  lemma {:induction false} TrimRightTakesSpace(s: string) returns (after: string)
    ensures s == TrimRight(s) + after && forall i | 0 <= i < |after| :: IsSpace(after[i])
    ensures TrimRight(s) != "" ==> TrimRight(s)[0] == s[0] && !IsSpace(TrimRight(s)[|TrimRight(s)| - 1])
  {
    if s != [] && IsSpace(s[|s| - 1]) {
      var n := |s| - 1;
      var more := TrimRightTakesSpace(s[..n]);
      after := more + [s[n]];
      assert s == s[..n] + [s[n]];
    } else {
      after := [];
    }
  }

  lemma {:induction false} TrimSpaceTakesSpace(s: string) returns (before: string, after: string)
    ensures IsTrimOf(s, TrimSpace(s), before, after)
  {
    before := TrimLeftTakesSpace(s);
    after := TrimRightTakesSpace(TrimLeft(s));
    assert s == before + (TrimSpace(s) + after) == before + TrimSpace(s) + after;
  }

  predicate HasPrefix(s: string, prefix: string) { prefix <= s }

  // The order of strings --------------------------------------------------------------

  /** Lexicographic order, a proper prefix first. */
  predicate Less(a: string, b: string) {
    if b == [] then false
    else if a == [] then true
    else a[0] < b[0] || (a[0] == b[0] && Less(a[1..], b[1..]))
  }

  /** The first place where the strings differ decides; with none, the shorter comes first. */
  lemma {:induction false} LessIffFirstDifference(a: string, b: string, i: nat)
    requires i <= |a| && i <= |b| && a[..i] == b[..i]
    requires i < |a| && i < |b| ==> a[i] != b[i]
    ensures Less(a, b) <==> if i < |a| && i < |b| then a[i] < b[i] else |a| < |b|
  {
    if i > 0 {
      assert a[0] == a[..i][0] == b[0];
      assert a[1..][..i - 1] == a[..i][1..] == b[1..][..i - 1];
      LessIffFirstDifference(a[1..], b[1..], i - 1);
    }
  }

  lemma {:induction false} LessIsStrict(a: string)
    ensures !Less(a, a)
  {
    if a != [] {
      LessIsStrict(a[1..]);
    }
  }

  lemma {:induction false} LessIsTransitive(a: string, b: string, c: string)
    requires Less(a, b) && Less(b, c)
    ensures Less(a, c)
  {
    if a != [] && a[0] == b[0] == c[0] {
      LessIsTransitive(a[1..], b[1..], c[1..]);
    }
  }

  lemma {:induction false} LessIsTotal(a: string, b: string)
    ensures Less(a, b) || a == b || Less(b, a)
  {
    if a != [] && b != [] && a[0] == b[0] {
      LessIsTotal(a[1..], b[1..]);
      assert a == [a[0]] + a[1..] && b == [b[0]] + b[1..];
    }
  }
}
