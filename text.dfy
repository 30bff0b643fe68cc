/** The few Python string operations the recommender relies on:
    `str.strip()`, `str.split(sep)`, `sep.join(xs)`, `str.replace(old, "")`
    and `str(int)`, each given a contract that characterises it. */
module Text {

  /** Python's `str.isspace()` for one character: the ASCII controls
      TAB..CR and FS..US, SPACE, NEL, NBSP and the Unicode space separators
      and line/paragraph separators. */
  predicate IsSpace(c: char) {
    || ('\t' <= c <= '\r')
    || ('\U{1C}' <= c <= '\U{1F}')
    || c == ' '
    || c == '\U{85}'
    || c == '\U{A0}'
    || c == '\U{1680}'
    || ('\U{2000}' <= c <= '\U{200A}')
    || c == '\U{2028}'
    || c == '\U{2029}'
    || c == '\U{202F}'
    || c == '\U{205F}'
    || c == '\U{3000}'
  }

  predicate AllSpace(s: string) {
    forall k :: 0 <= k < |s| ==> IsSpace(s[k])
  }

  /** Neither end of `s` is whitespace. */
  predicate IsTrimmed(s: string) {
    s == [] || (!IsSpace(s[0]) && !IsSpace(s[|s| - 1]))
  }

  /** `s.lstrip()`: drops leading whitespace. */
  function TrimLeft(s: string): (r: string)
    ensures |r| <= |s|
  {
    if s != [] && IsSpace(s[0]) then TrimLeft(s[1..]) else s
  }

  /** What `lstrip` keeps is the longest suffix not starting with
      whitespace, and what it drops is all whitespace. */
  lemma {:induction false} TrimLeftShape(s: string)
    ensures TrimLeft(s) == s[|s| - |TrimLeft(s)|..]
    ensures AllSpace(s[..|s| - |TrimLeft(s)|])
    ensures TrimLeft(s) == [] || !IsSpace(TrimLeft(s)[0])
  {
    if s != [] && IsSpace(s[0]) {
      TrimLeftShape(s[1..]);
      var n := |s| - |TrimLeft(s)|;
      assert s[1..][n - 1..] == s[n..];
      assert s[..n] == [s[0]] + s[1..][..n - 1];
    }
  }

  /** `s.rstrip()`: drops trailing whitespace. */
  function TrimRight(s: string): (r: string)
    ensures |r| <= |s|
  {
    if s != [] && IsSpace(s[|s| - 1]) then TrimRight(s[..|s| - 1]) else s
  }

  /** What `rstrip` keeps is the longest prefix not ending in whitespace,
      and what it drops is all whitespace. */
  lemma {:induction false} TrimRightShape(s: string)
    ensures TrimRight(s) == s[..|TrimRight(s)|]
    ensures AllSpace(s[|TrimRight(s)|..])
    ensures TrimRight(s) == [] || !IsSpace(TrimRight(s)[|TrimRight(s)| - 1])
  {
    if s != [] && IsSpace(s[|s| - 1]) {
      var p := s[..|s| - 1];
      TrimRightShape(p);
      var n := |TrimRight(s)|;
      assert p[..n] == s[..n];
      assert s[n..] == p[n..] + [s[|s| - 1]];
    }
  }

  /** `s.strip()`. */
  function Trim(s: string): (r: string)
    ensures IsTrimmed(r)
    ensures |r| <= |s|
  {
    var l := TrimLeft(s);
    var r := TrimRight(l);
    TrimEnds(s, l, r);
    r
  }

  /** Stripping leaves nothing exactly when the text is all whitespace. */
  lemma TrimEmptyIff(s: string)
    ensures Trim(s) == [] <==> AllSpace(s)
  {
    TrimEnds(s, TrimLeft(s), TrimRight(TrimLeft(s)));
    TrimEmpty(s, TrimLeft(s), TrimRight(TrimLeft(s)));
  }

  lemma TrimEnds(s: string, l: string, r: string)
    requires l == TrimLeft(s) && r == TrimRight(l)
    ensures IsTrimmed(r)
    ensures AllSpace(s) ==> r == []
  {
    TrimLeftShape(s);
    TrimRightShape(l);
    if r != [] {
      assert r[0] == l[0];
      assert s[|s| - |l|] == l[0];
    }
  }

  /** Stripping only removes characters. */
  lemma TrimChars(s: string)
    ensures forall c :: c in Trim(s) ==> c in s
  {
    TrimKeepsChars(s, TrimLeft(s), TrimRight(TrimLeft(s)));
  }

  lemma TrimKeepsChars(s: string, l: string, r: string)
    requires l == TrimLeft(s) && r == TrimRight(l)
    ensures forall c :: c in r ==> c in s
  {
    TrimLeftShape(s);
    TrimRightShape(l);
    forall c | c in r ensures c in s {
      var k :| 0 <= k < |r| && r[k] == c;
      assert l[k] == c;
      assert s[|s| - |l| + k] == c;
    }
  }

  lemma TrimEmpty(s: string, l: string, r: string)
    requires l == TrimLeft(s) && r == TrimRight(l)
    ensures r == [] ==> AllSpace(s)
  {
    TrimLeftShape(s);
    TrimRightShape(l);
    if r == [] {
      assert s == s[..|s| - |l|];
    }
  }

  lemma AllSpaceConcat(a: string, b: string)
    ensures AllSpace(a + b) <==> AllSpace(a) && AllSpace(b)
  {
    if AllSpace(a) && AllSpace(b) {
      forall k | 0 <= k < |a + b| ensures IsSpace((a + b)[k]) {
        if k >= |a| {
          assert (a + b)[k] == b[k - |a|];
        }
      }
    }
    if AllSpace(a + b) {
      forall k | 0 <= k < |a| ensures IsSpace(a[k]) {
        assert (a + b)[k] == a[k];
      }
      forall k | 0 <= k < |b| ensures IsSpace(b[k]) {
        assert (a + b)[|a| + k] == b[k];
      }
    }
  }

  /** Whitespace around an already trimmed string is exactly what `Trim`
      takes away: together with `TrimLeftShape` and `TrimRightShape`
      this pins `Trim` down completely. */
  lemma {:induction false} TrimUnique(a: string, t: string, b: string)
    requires AllSpace(a) && AllSpace(b) && IsTrimmed(t)
    ensures Trim(a + t + b) == t
  {
    if t == [] {
      AllSpaceConcat(a, b);
      assert a + t + b == a + b;
      TrimEmptyIff(a + b);
    } else {
      TrimLeftPadded(a, t + b);
      assert a + t + b == a + (t + b);
      TrimRightPadded(t, b);
    }
  }

  lemma {:induction false} TrimLeftPadded(a: string, u: string)
    requires AllSpace(a)
    requires u == [] || !IsSpace(u[0])
    ensures TrimLeft(a + u) == u
  {
    if a != [] {
      assert (a + u)[1..] == a[1..] + u;
      TrimLeftPadded(a[1..], u);
    }
  }

  lemma {:induction false} TrimRightPadded(t: string, b: string)
    requires AllSpace(b)
    requires t == [] || !IsSpace(t[|t| - 1])
    ensures TrimRight(t + b) == t
  {
    if b != [] {
      assert (t + b)[..|t + b| - 1] == t + b[..|b| - 1];
      TrimRightPadded(t, b[..|b| - 1]);
    } else {
      assert t + b == t;
    }
  }

  /** A single leading blank is stripped off. */
  lemma TrimLeadingBlank(t: string)
    requires IsTrimmed(t)
    ensures Trim([' '] + t) == t
  {
    assert AllSpace([' ']);
    TrimUnique([' '], t, []);
    assert [' '] + t + [] == [' '] + t;
  }

  /** Stripping twice is stripping once. */
  lemma TrimIdempotent(s: string)
    ensures Trim(Trim(s)) == Trim(s)
  {
    TrimUnique([], Trim(s), []);
    assert [] + Trim(s) + [] == Trim(s);
  }

  /** `s.split(sep)` for a one-character separator: the pieces between the
      occurrences of `sep`, always at least one. */
  function Split(s: string, sep: char): (r: seq<string>)
    ensures |r| >= 1
  {
    if s == [] then [[]]
    else
      var rest := Split(s[1..], sep);
      if s[0] == sep then [[]] + rest
      else [[s[0]] + rest[0]] + rest[1..]
  }

  /** No piece holds the separator. */
  lemma {:induction false} SplitAvoids(s: string, sep: char, k: nat)
    requires k < |Split(s, sep)|
    ensures sep !in Split(s, sep)[k]
  {
    if s != [] {
      if s[0] == sep {
        if k > 0 {
          SplitAvoids(s[1..], sep, k - 1);
        }
      } else {
        SplitAvoids(s[1..], sep, k);
      }
    }
  }

  /** Every piece is made of characters of the text. */
  lemma {:induction false} SplitChars(s: string, sep: char, k: nat)
    requires k < |Split(s, sep)|
    ensures forall c :: c in Split(s, sep)[k] ==> c in s
  {
    if s != [] {
      var rest := Split(s[1..], sep);
      assert s == [s[0]] + s[1..];
      if s[0] == sep {
        if k > 0 {
          SplitChars(s[1..], sep, k - 1);
        }
      } else {
        SplitChars(s[1..], sep, k);
      }
    }
  }

  /** A character in neither part is not in their concatenation. */
  lemma AvoidsConcat(a: string, b: string, c: char)
    requires c !in a && c !in b
    ensures c !in a + b
  {
  }

  /** `sep.join(xs)`. */
  function Join(xs: seq<string>, sep: string): (r: string) {
    if |xs| == 0 then []
    else if |xs| == 1 then xs[0]
    else xs[0] + sep + Join(xs[1..], sep)
  }

  /** Joining two non-empty lists puts one separator between their joins. */
  lemma {:induction false} JoinConcat(xs: seq<string>, ys: seq<string>, sep: string)
    requires |xs| >= 1 && |ys| >= 1
    ensures Join(xs + ys, sep) == Join(xs, sep) + sep + Join(ys, sep)
  {
    if |xs| == 1 {
      assert (xs + ys)[1..] == ys;
    } else {
      assert (xs + ys)[1..] == xs[1..] + ys;
      JoinConcat(xs[1..], ys, sep);
    }
  }

  /** A character found neither in the pieces nor in the separator is not
      in their join. */
  lemma {:induction false} JoinAvoids(xs: seq<string>, sep: string, c: char)
    requires c !in sep
    requires forall k :: 0 <= k < |xs| ==> c !in xs[k]
    ensures c !in Join(xs, sep)
  {
    if |xs| > 1 {
      JoinAvoids(xs[1..], sep, c);
    }
  }

  /** Joining the pieces of a split restores the original text. */
  lemma {:induction false} JoinSplit(s: string, sep: char)
    ensures Join(Split(s, sep), [sep]) == s
  {
    if s != [] {
      var rest := Split(s[1..], sep);
      JoinSplit(s[1..], sep);
      if s[0] != sep {
        var r := Split(s, sep);
        if |rest| > 1 {
          assert r[1..] == rest[1..];
          assert Join(rest, [sep]) == rest[0] + [sep] + Join(rest[1..], [sep]);
        }
      }
    }
  }

  /** A piece without the separator splits to itself. */
  lemma {:induction false} SplitNoSeparator(s: string, sep: char)
    requires sep !in s
    ensures Split(s, sep) == [s]
  {
    if s != [] {
      SplitNoSeparator(s[1..], sep);
      assert [s[0]] + s[1..] == s;
    }
  }

  lemma {:induction false} SplitAfterPiece(x: string, sep: char, t: string)
    requires sep !in x
    ensures Split(x + [sep] + t, sep) == [x] + Split(t, sep)
  {
    if x == [] {
      assert [] + [sep] + t == [sep] + t;
      assert ([sep] + t)[1..] == t;
    } else {
      assert (x + [sep] + t)[0] == x[0];
      assert (x + [sep] + t)[1..] == x[1..] + [sep] + t;
      SplitAfterPiece(x[1..], sep, t);
      assert [x[0]] + x[1..] == x;
    }
  }

  /** Splitting a join of separator-free pieces gives the pieces back. */
  lemma {:induction false} SplitJoin(xs: seq<string>, sep: char)
    requires |xs| >= 1
    requires forall k :: 0 <= k < |xs| ==> sep !in xs[k]
    ensures Split(Join(xs, [sep]), sep) == xs
  {
    if |xs| == 1 {
      SplitNoSeparator(xs[0], sep);
    } else {
      SplitJoin(xs[1..], sep);
      SplitAfterPiece(xs[0], sep, Join(xs[1..], [sep]));
    }
  }

  /** The first piece of a split starts with the text's first character
      unless that character is the separator. */
  lemma SplitFirstPiece(s: string, sep: char)
    requires s != [] && s[0] != sep
    ensures Split(s, sep)[0] != [] && Split(s, sep)[0][0] == s[0]
  {
  }

  /** Does `pat` occur in `s` starting at position `i`? */
  predicate OccursAt(s: string, pat: string, i: int) {
    0 <= i && i + |pat| <= |s| && s[i..i + |pat|] == pat
  }

  ghost predicate Contains(s: string, pat: string) {
    exists i :: OccursAt(s, pat, i)
  }

  /** `s.replace(pat, "")`: one left-to-right scan that drops every
      non-overlapping occurrence of `pat`; an empty `pat` leaves `s` as it is. */
  function RemoveAll(s: string, pat: string): (r: string)
    ensures |r| <= |s|
    decreases |s|
  {
    if pat == [] || |s| < |pat| then s
    else if s[..|pat|] == pat then RemoveAll(s[|pat|..], pat)
    else [s[0]] + RemoveAll(s[1..], pat)
  }

  /** Removing only drops characters: none is added or duplicated. */
  lemma {:induction false} RemoveAllChars(s: string, pat: string)
    ensures multiset(RemoveAll(s, pat)) <= multiset(s)
    decreases |s|
  {
    if pat != [] && |s| >= |pat| {
      if s[..|pat|] == pat {
        assert s == s[..|pat|] + s[|pat|..];
        RemoveAllChars(s[|pat|..], pat);
      } else {
        assert s == [s[0]] + s[1..];
        RemoveAllChars(s[1..], pat);
      }
    }
  }

  /** The text changes exactly when the pattern occurs in it. */
  lemma RemoveAllUnchanged(s: string, pat: string)
    requires pat != []
    ensures RemoveAll(s, pat) == s <==> !Contains(s, pat)
  {
    if Contains(s, pat) {
      var i :| OccursAt(s, pat, i);
      RemoveAllShrinks(s, pat, i);
    } else {
      RemoveAllNoOccurrence(s, pat);
    }
  }

  lemma {:induction false} RemoveAllShrinks(s: string, pat: string, i: int)
    requires pat != [] && OccursAt(s, pat, i)
    ensures |RemoveAll(s, pat)| < |s|
    decreases |s|
  {
    if s[..|pat|] != pat {
      assert i > 0;
      assert s[1..][i - 1..i - 1 + |pat|] == s[i..i + |pat|];
      RemoveAllShrinks(s[1..], pat, i - 1);
    }
  }

  lemma {:induction false} RemoveAllNoOccurrence(s: string, pat: string)
    requires pat != [] && !Contains(s, pat)
    ensures RemoveAll(s, pat) == s
    decreases |s|
  {
    if |s| >= |pat| {
      assert !OccursAt(s, pat, 0);
      forall i | OccursAt(s[1..], pat, i) ensures OccursAt(s, pat, i + 1) {
        assert s[i + 1..i + 1 + |pat|] == s[1..][i..i + |pat|];
      }
      RemoveAllNoOccurrence(s[1..], pat);
    }
  }

  /** A leading occurrence of the pattern is removed and the scan goes on
      right after it. */
  lemma RemoveAllLeading(pat: string, s: string)
    requires pat != []
    ensures RemoveAll(pat + s, pat) == RemoveAll(s, pat)
  {
    assert (pat + s)[..|pat|] == pat;
    assert (pat + s)[|pat|..] == s;
  }

  /** Text inside which no occurrence of the pattern starts is kept, in
      order, and the scan goes on with what follows. */
  lemma {:induction false} RemoveAllKeepsPrefix(x: string, y: string, pat: string)
    requires pat != []
    requires forall p :: 0 <= p < |x| ==> !OccursAt(x + y, pat, p)
    ensures RemoveAll(x + y, pat) == x + RemoveAll(y, pat)
    decreases |x|
  {
    if x == [] {
      assert x + y == y;
    } else {
      var s := x + y;
      assert s[1..] == x[1..] + y;
      forall p | 0 <= p < |x| - 1 && OccursAt(s[1..], pat, p)
        ensures OccursAt(s, pat, p + 1)
      {
        assert s[p + 1..p + 1 + |pat|] == s[1..][p..p + |pat|];
      }
      RemoveAllKeepsPrefix(x[1..], y, pat);
      if |s| >= |pat| {
        assert !OccursAt(s, pat, 0);
        RemoveAllStep(s, pat);
      }
      assert [x[0]] + (x[1..] + RemoveAll(y, pat)) == x + RemoveAll(y, pat);
    }
  }

  /** Where the pattern does not start, the scan keeps one character and
      moves on. */
  lemma RemoveAllStep(s: string, pat: string)
    requires pat != [] && |s| >= |pat| && s[..|pat|] != pat
    ensures RemoveAll(s, pat) == [s[0]] + RemoveAll(s[1..], pat)
  {
  }

  /** `str.replace` makes a single pass: removing the marker can bring a new
      copy of it together, and that copy stays. */
  lemma ReplaceIsSinglePass()
    ensures RemoveAll("TiTitle:tle:", "Title:") == "Title:"
  {
    var s, pat := "TiTitle:tle:", "Title:";
    assert s[..6] != pat by {
      assert s[2] != pat[2];
    }
    assert s[1..][..6] != pat by {
      assert s[1] != pat[0];
    }
    assert s[1..][1..] == s[2..];
    assert s[2..][..6] == pat && s[2..][6..] == s[8..];
    RemoveAllStep(s, pat);
    RemoveAllStep(s[1..], pat);
    RemoveAllMatch(s[2..], pat);
    assert [s[0]] + ([s[1..][0]] + s[8..]) == pat;
  }

  lemma RemoveAllMatch(s: string, pat: string)
    requires pat != [] && |s| >= |pat| && s[..|pat|] == pat
    ensures RemoveAll(s, pat) == RemoveAll(s[|pat|..], pat)
  {
  }

  predicate IsDigit(c: char) {
    '0' <= c <= '9'
  }

  function DigitChar(d: nat): (c: char)
    requires d < 10
    ensures IsDigit(c) && c as int - '0' as int == d
  {
    ('0' as int + d) as char
  }

  predicate IsDigits(s: string) {
    forall k :: 0 <= k < |s| ==> IsDigit(s[k])
  }

  /** The value of a string of decimal digits. */
  function ParseNat(s: string): (n: nat)
    requires IsDigits(s)
  {
    if s == [] then 0
    else
      assert IsDigit(s[|s| - 1]);
      ParseNat(s[..|s| - 1]) * 10 + (s[|s| - 1] as int - '0' as int)
  }

  /** `str(n)` for `n >= 0`: decimal digits with no leading zero. */
  function NatToString(n: nat): (r: string)
    ensures r != []
    ensures IsDigits(r)
    ensures r[0] == '0' ==> n == 0
    ensures ParseNat(r) == n
  {
    if n < 10 then [DigitChar(n)]
    else
      var r := NatToString(n / 10) + [DigitChar(n % 10)];
      assert r[..|r| - 1] == NatToString(n / 10);
      r
  }

  /** `str(n)` for any integer: a minus sign before the digits of `|n|`. */
  function IntToString(n: int): (r: string)
    ensures r != []
  {
    if n < 0 then "-" + NatToString(-n) else NatToString(n)
  }

  /** The text of `str(n)` starts with '-' exactly for negative numbers,
      holds no line break, and reads back as `n`. */
  lemma IntToStringDigits(n: int)
    ensures (IntToString(n)[0] == '-') <==> n < 0
    ensures '\n' !in IntToString(n)
    ensures n < 0 ==> IsDigits(IntToString(n)[1..]) && ParseNat(IntToString(n)[1..]) == -n
    ensures n >= 0 ==> IsDigits(IntToString(n)) && ParseNat(IntToString(n)) == n
  {
    if n < 0 {
      assert IntToString(n)[1..] == NatToString(-n);
    }
  }

  /** Different integers print differently. */
  lemma IntToStringInjective(a: int, b: int)
    requires IntToString(a) == IntToString(b)
    ensures a == b
  {
    IntToStringDigits(a);
    IntToStringDigits(b);
  }
}
