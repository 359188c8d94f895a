/**
  The handful of Python `str` operations the modelled code relies on,
  with the semantics CPython gives them: `isspace`, `strip`, `find` and
  `rfind` of one character, `in` on strings, `replace`, `split` on one
  separator character, `join`, and `lower` (ASCII letters only).
 */
module PyStr {

  /** `c.isspace()`: the characters CPython treats as whitespace. */
  predicate IsSpace(c: char) {
    c == ' ' || ('\t' <= c <= '\r') || ('\U{1C}' <= c <= '\U{1F}')
    || c == '\U{85}' || c == '\U{A0}' || c == '\U{1680}'
    || ('\U{2000}' <= c <= '\U{200A}') || c == '\U{2028}' || c == '\U{2029}'
    || c == '\U{202F}' || c == '\U{205F}' || c == '\U{3000}'
  }

  predicate AllSpace(s: string) {
    forall i :: 0 <= i < |s| ==> IsSpace(s[i])
  }

  /** The number of whitespace characters `s` starts with. */
  function LeadingSpaces(s: string): (n: nat)
    ensures n <= |s|
    ensures forall i :: 0 <= i < n ==> IsSpace(s[i])
    ensures n == |s| || !IsSpace(s[n])
  {
    if |s| > 0 && IsSpace(s[0]) then 1 + LeadingSpaces(s[1..]) else 0
  }

  /** The number of whitespace characters `s` ends with. */
  function TrailingSpaces(s: string): (n: nat)
    ensures n <= |s|
    ensures forall i :: |s| - n <= i < |s| ==> IsSpace(s[i])
    ensures n == |s| || !IsSpace(s[|s| - 1 - n])
  {
    if |s| > 0 && IsSpace(s[|s| - 1]) then 1 + TrailingSpaces(s[..|s| - 1]) else 0
  }

  /**
    The slice `s[lo..hi]` that `s.strip()` keeps: everything outside it is
    whitespace, and it is empty or starts and ends with a non-space.
   */
  function StripBounds(s: string): (b: (nat, nat))
    ensures b.0 <= b.1 <= |s|
    ensures forall i :: 0 <= i < b.0 ==> IsSpace(s[i])
    ensures forall i :: b.1 <= i < |s| ==> IsSpace(s[i])
    ensures b.0 == b.1 || (!IsSpace(s[b.0]) && !IsSpace(s[b.1 - 1]))
  {
    var lo := LeadingSpaces(s);
    if lo == |s| then (0, 0) else (lo, |s| - TrailingSpaces(s))
  }

  /** `s.strip()`: `s` without its leading and trailing whitespace. */
  function Strip(s: string): (r: string)
    ensures |r| <= |s|
    ensures r == [] || (!IsSpace(r[0]) && !IsSpace(r[|r| - 1]))
    ensures r == [] <==> AllSpace(s)
  {
    var b := StripBounds(s);
    assert b.0 < b.1 ==> s[b.0..b.1][0] == s[b.0];
    s[b.0..b.1]
  }

  /** Stripping twice is stripping once. */
  lemma StripIdempotent(s: string)
    ensures Strip(Strip(s)) == Strip(s)
  {
    var r := Strip(s);
    var b := StripBounds(r);
    assert r != [] ==> b == (0, |r|);
  }

  /** The first index at or after `lo` holding `c`, or -1. */
  function FindFrom(s: string, c: char, lo: nat): (r: int)
    requires lo <= |s|
    ensures -1 <= r < |s|
    ensures r == -1 <==> forall j :: lo <= j < |s| ==> s[j] != c
    ensures r >= 0 ==> lo <= r && s[r] == c && forall j :: lo <= j < r ==> s[j] != c
    decreases |s| - lo
  {
    if lo == |s| then -1 else if s[lo] == c then lo else FindFrom(s, c, lo + 1)
  }

  /** `s.find(c)`: the first index of `c` in `s`, or -1. */
  function Find(s: string, c: char): (r: int)
    ensures -1 <= r < |s|
    ensures r == -1 <==> c !in s
    ensures r >= 0 ==> s[r] == c && forall j :: 0 <= j < r ==> s[j] != c
  {
    FindFrom(s, c, 0)
  }

  /** The last index below `hi` holding `c`, or -1. */
  function RFindBelow(s: string, c: char, hi: nat): (r: int)
    requires hi <= |s|
    ensures -1 <= r < hi
    ensures r == -1 <==> forall j :: 0 <= j < hi ==> s[j] != c
    ensures r >= 0 ==> s[r] == c && forall j :: r < j < hi ==> s[j] != c
  {
    if hi == 0 then -1 else if s[hi - 1] == c then hi - 1 else RFindBelow(s, c, hi - 1)
  }

  /** `s.rfind(c)`: the last index of `c` in `s`, or -1. */
  function RFind(s: string, c: char): (r: int)
    ensures -1 <= r < |s|
    ensures r == -1 <==> c !in s
    ensures r >= 0 ==> s[r] == c && forall j :: r < j < |s| ==> s[j] != c
  {
    RFindBelow(s, c, |s|)
  }

  predicate StartsWith(s: string, t: string) {
    |t| <= |s| && s[..|t|] == t
  }

  predicate EndsWith(s: string, t: string) {
    |t| <= |s| && s[|s| - |t|..] == t
  }

  /** Python's `t in s` on strings. */
  predicate Contains(s: string, t: string)
    decreases |s|
  {
    StartsWith(s, t) || (|s| > 0 && Contains(s[1..], t))
  }

  /** `t` occurs at index `i` of `s`. */
  predicate OccursAt(s: string, t: string, i: int) {
    0 <= i && i + |t| <= |s| && s[i..i + |t|] == t
  }

  lemma {:induction false} OccursContains(s: string, t: string, i: int)
    requires OccursAt(s, t, i)
    ensures Contains(s, t)
    decreases i
  {
    if i > 0 {
      assert s[1..][i - 1..i - 1 + |t|] == s[i..i + |t|];
      OccursContains(s[1..], t, i - 1);
    }
  }

  lemma {:induction false} ContainsOccurs(s: string, t: string)
    requires Contains(s, t)
    ensures exists i :: OccursAt(s, t, i)
    decreases |s|
  {
    if StartsWith(s, t) {
      assert OccursAt(s, t, 0);
    } else {
      ContainsOccurs(s[1..], t);
      var i :| OccursAt(s[1..], t, i);
      assert s[i + 1..i + 1 + |t|] == s[1..][i..i + |t|];
      assert OccursAt(s, t, i + 1);
    }
  }

  /** `t in s` holds exactly when `t` occurs at some index of `s`. */
  lemma ContainsIff(s: string, t: string)
    ensures Contains(s, t) <==> exists i :: OccursAt(s, t, i)
  {
    if Contains(s, t) {
      ContainsOccurs(s, t);
    }
    forall i | OccursAt(s, t, i) ensures Contains(s, t) {
      OccursContains(s, t, i);
    }
  }

  /**
    `s.replace(pat, rep)` for a non-empty pattern: occurrences are replaced
    left to right and never overlap.
   */
  function ReplaceAll(s: string, pat: string, rep: string): (r: string)
    requires |pat| > 0
    ensures |rep| <= |pat| ==> |r| <= |s|
    decreases |s|
  {
    if StartsWith(s, pat) then rep + ReplaceAll(s[|pat|..], pat, rep)
    else if |s| == 0 then []
    else [s[0]] + ReplaceAll(s[1..], pat, rep)
  }

  /** A two-character pattern cannot occur where its first character does not. */
  lemma NoPairWithoutLead(t: string, a: char, b: char)
    requires a !in t
    ensures !Contains(t, [a, b])
  {
    ContainsIff(t, [a, b]);
    forall i | 0 <= i < |t| ensures !OccursAt(t, [a, b], i) {
      assert t[i] != a;
    }
  }

  lemma {:induction false} ReplaceAbsent(s: string, pat: string, rep: string)
    requires |pat| > 0
    requires !Contains(s, pat)
    ensures ReplaceAll(s, pat, rep) == s
    decreases |s|
  {
    if |s| > 0 {
      ReplaceAbsent(s[1..], pat, rep);
    }
  }

  /** A first character that cannot start the pattern survives the replacement. */
  lemma ReplaceKeepsFirst(s: string, pat: string, rep: string)
    requires |pat| > 0 && |s| > 0 && s[0] != pat[0]
    ensures |ReplaceAll(s, pat, rep)| > 0 && ReplaceAll(s, pat, rep)[0] == s[0]
  {
  }

  /** A last character that cannot end the pattern survives the replacement. */
  lemma {:induction false} ReplaceKeepsLast(s: string, pat: string, rep: string)
    requires |pat| > 0 && |s| > 0 && s[|s| - 1] != pat[|pat| - 1]
    ensures var r := ReplaceAll(s, pat, rep); |r| > 0 && r[|r| - 1] == s[|s| - 1]
    decreases |s|
  {
    if StartsWith(s, pat) && |s| > |pat| {
      var rest := s[|pat|..];
      assert rest[|rest| - 1] == s[|s| - 1];
      ReplaceKeepsLast(rest, pat, rep);
    } else if !StartsWith(s, pat) && |s| > 1 {
      ReplaceKeepsLast(s[1..], pat, rep);
    }
  }

  /** Replacing the pattern by itself changes nothing. */
  lemma {:induction false} ReplaceBySelf(s: string, pat: string)
    requires |pat| > 0
    ensures ReplaceAll(s, pat, pat) == s
    decreases |s|
  {
    if StartsWith(s, pat) {
      ReplaceBySelf(s[|pat|..], pat);
      assert s == pat + s[|pat|..];
    } else if |s| > 0 {
      ReplaceBySelf(s[1..], pat);
      assert s == [s[0]] + s[1..];
    }
  }

  /** `t` with the escape character `e` put before every `q`. */
  function EscapeBefore(t: string, e: char, q: char): (s: string)
    ensures |s| >= |t|
    ensures |t| > 0 && t[0] != q ==> |s| > 0 && s[0] == t[0]
    decreases |t|
  {
    if t == [] then []
    else (if t[0] == q then [e, q] else [t[0]]) + EscapeBefore(t[1..], e, q)
  }

  /** An escaped `q` at the front comes back as `q`. */
  lemma UnescapeQuoteStep(t: string, e: char, q: char)
    requires t != [] && t[0] == q
    ensures ReplaceAll(EscapeBefore(t, e, q), [e, q], [q])
            == [q] + ReplaceAll(EscapeBefore(t[1..], e, q), [e, q], [q])
  {
  }

  /** Any other character at the front, not being `e`, is copied. */
  lemma UnescapeOtherStep(t: string, e: char, q: char)
    requires t != [] && t[0] != q && t[0] != e
    ensures ReplaceAll(EscapeBefore(t, e, q), [e, q], [q])
            == [t[0]] + ReplaceAll(EscapeBefore(t[1..], e, q), [e, q], [q])
  {
    var s := EscapeBefore(t, e, q);
    assert s == [t[0]] + EscapeBefore(t[1..], e, q);
    assert !StartsWith(s, [e, q]);
    assert s[1..] == EscapeBefore(t[1..], e, q);
  }

  /**
    Replacing `e q` by `q` undoes `EscapeBefore`, provided the text held no
    escape character of its own.
   */
  lemma {:induction false} UnescapeEscaped(t: string, e: char, q: char)
    requires e != q && e !in t
    ensures ReplaceAll(EscapeBefore(t, e, q), [e, q], [q]) == t
    decreases |t|
  {
    if t != [] {
      assert e !in t[1..] by {
        forall i | 0 <= i < |t[1..]| ensures t[1..][i] != e {
          assert t[1..][i] == t[i + 1];
        }
      }
      UnescapeEscaped(t[1..], e, q);
      if t[0] == q {
        UnescapeQuoteStep(t, e, q);
      } else {
        UnescapeOtherStep(t, e, q);
      }
      assert t == [t[0]] + t[1..];
    }
  }

  /** `s.split(c)` for a one-character separator. */
  function Split(s: string, c: char): (parts: seq<string>)
    ensures |parts| >= 1
    ensures |parts| == 1 <==> c !in s
    ensures forall k :: 0 <= k < |parts| ==> c !in parts[k]
    decreases |s|
  {
    var k := Find(s, c);
    if k < 0 then [s] else [s[..k]] + Split(s[k + 1..], c)
  }

  /** `sep.join(parts)`. */
  function Join(parts: seq<string>, sep: string): string {
    if |parts| == 0 then ""
    else if |parts| == 1 then parts[0]
    else parts[0] + sep + Join(parts[1..], sep)
  }

  /** Past its first `c`, a string splits into the text before it and the split of the rest. */
  lemma SplitAt(s: string, c: char, k: int)
    requires 0 <= k == Find(s, c)
    ensures Split(s, c) == [s[..k]] + Split(s[k + 1..], c)
  {
  }

  /** A string is its prefix, one character and its suffix. */
  lemma Around(s: string, k: int)
    requires 0 <= k < |s|
    ensures s[..k] + [s[k]] + s[k + 1..] == s
  {
  }

  /** Splitting on `c` and joining with `c` gives back the string. */
  lemma {:induction false} JoinSplit(s: string, c: char)
    ensures Join(Split(s, c), [c]) == s
    decreases |s|
  {
    var k := Find(s, c);
    if k >= 0 {
      var rest := s[k + 1..];
      var p := Split(rest, c);
      calc {
        Join(Split(s, c), [c]);
        { SplitAt(s, c, k); }
        Join([s[..k]] + p, [c]);
        { JoinCons(s[..k], p, [c]); }
        s[..k] + [c] + Join(p, [c]);
        { JoinSplit(rest, c); }
        s[..k] + [s[k]] + rest;
        { Around(s, k); }
        s;
      }
    }
  }

  /** Joining parts free of `c` with `c` and splitting on `c` gives back the parts. */
  lemma {:induction false} SplitJoin(parts: seq<string>, c: char)
    requires |parts| >= 1
    requires forall k :: 0 <= k < |parts| ==> c !in parts[k]
    ensures Split(Join(parts, [c]), c) == parts
    decreases |parts|
  {
    if |parts| > 1 {
      var x, tail := parts[0], parts[1..];
      var rest := Join(tail, [c]);
      var s := x + [c] + rest;
      JoinCons(x, tail, [c]);
      assert parts == [x] + tail;
      forall j | 0 <= j < |x| ensures s[j] != c {
        assert s[j] == x[j];
      }
      FindIsFirst(s, c, |x|);
      assert s[..|x|] == x && s[|x| + 1..] == rest;
      SplitJoin(tail, c);
    }
  }

  /** An occurrence of `c` with no `c` before it is what `find` returns. */
  lemma FindIsFirst(s: string, c: char, j: int)
    requires 0 <= j < |s| && s[j] == c
    requires forall k :: 0 <= k < j ==> s[k] != c
    ensures Find(s, c) == j
  {
  }

  /** Joining a list with at least two parts puts `sep` after the first one. */
  lemma JoinCons(x: string, p: seq<string>, sep: string)
    requires |p| >= 1
    ensures Join([x] + p, sep) == x + sep + Join(p, sep)
  {
    assert ([x] + p)[1..] == p;
  }

  /** Joining with one more part at the end puts `sep` before it. */
  lemma {:induction false} JoinSnoc(q: seq<string>, x: string, sep: string)
    requires |q| >= 1
    ensures Join(q + [x], sep) == Join(q, sep) + sep + x
    decreases |q|
  {
    if |q| == 1 {
      assert (q + [x])[1..] == [x];
    } else {
      assert (q + [x])[1..] == q[1..] + [x];
      JoinSnoc(q[1..], x, sep);
    }
  }

  /**
    Joining all parts but the last gives the text before the last `c`, and
    the empty string when there is no `c`.
   */
  lemma JoinSplitDropLast(s: string, c: char)
    ensures var parts := Split(s, c);
            var j := RFind(s, c);
            Join(parts[..|parts| - 1], [c]) == (if j < 0 then "" else s[..j])
  {
    var parts := Split(s, c);
    var n := |parts|;
    if n == 1 {
      assert parts[..0] == [];
    } else {
      var q, x := parts[..n - 1], parts[n - 1];
      assert parts == q + [x];
      JoinSplit(s, c);
      JoinSnoc(q, x, [c]);
      LastSeparator(s, c, Join(q, [c]), x);
    }
  }

  /** In `front + c + x` with no `c` in `x`, the last `c` closes `front`. */
  lemma LastSeparator(s: string, c: char, front: string, x: string)
    requires s == front + [c] + x && c !in x
    ensures RFind(s, c) == |front| && s[..|front|] == front
  {
    forall m | |front| < m < |s| ensures s[m] != c {
      assert s[m] == x[m - |front| - 1];
    }
    RFindIsLast(s, c, |front|);
  }

  /** An occurrence of `c` with no `c` after it is what `rfind` returns. */
  lemma RFindIsLast(s: string, c: char, j: int)
    requires 0 <= j < |s| && s[j] == c
    requires forall k :: j < k < |s| ==> s[k] != c
    ensures RFind(s, c) == j
  {
  }

  /** A character that does not occur in `b` leaves `RFind` on `a` unchanged by appending `b`. */
  lemma RFindAppendAbsent(a: string, b: string, c: char)
    requires c !in b
    ensures RFind(a + b, c) == RFind(a, c)
  {
    if c in a {
      var j := RFind(a, c);
      assert (a + b)[j] == c;
      forall k | j < k < |a + b| ensures (a + b)[k] != c {
        if k >= |a| {
          assert (a + b)[k] == b[k - |a|];
        }
      }
      RFindIsLast(a + b, c, j);
    } else {
      assert c !in a + b;
    }
  }

  function LowerChar(c: char): char {
    if 'A' <= c <= 'Z' then (c as int + 32) as char else c
  }

  /** `s.lower()` restricted to ASCII letters. */
  function Lower(s: string): (r: string)
    ensures |r| == |s|
    ensures forall i :: 0 <= i < |s| ==> r[i] == LowerChar(s[i])
  {
    seq(|s|, i requires 0 <= i < |s| => LowerChar(s[i]))
  }
}
