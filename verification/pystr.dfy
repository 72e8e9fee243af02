/** The Python `str` operations the log parser depends on: `strip()` with no
    argument, and `split(sep, maxsplit)` with a one-character separator. */
module PyStr {

  /** Python's `str.isspace()` for one character: the control characters
      \t \n \v \f \r, the separators \x1c..\x1f, the space, and the Unicode
      space characters CPython classifies as whitespace. */
  predicate IsSpace(c: char)
  {
    || ('\t' <= c <= '\r')
    || ('\U{1C}' <= c <= ' ')
    || c == '\U{85}' || c == '\U{A0}' || c == '\U{1680}'
    || ('\U{2000}' <= c <= '\U{200A}')
    || c == '\U{2028}' || c == '\U{2029}' || c == '\U{202F}'
    || c == '\U{205F}' || c == '\U{3000}'
  }

  predicate AllSpace(s: string)
  {
    forall k :: 0 <= k < |s| ==> IsSpace(s[k])
  }

  /** A string with no whitespace at either end: what `strip()` returns. */
  predicate IsStripped(s: string)
  {
    |s| == 0 || (!IsSpace(s[0]) && !IsSpace(s[|s| - 1]))
  }

  /** The character test "is `c`", as a value that can be passed to Find. */
  function Equals(c: char): char -> bool
  {
    x => x == c
  }

  /** Index of the first character of `s` satisfying `p`, or `|s|` if none does. */
  function Find(s: string, p: char -> bool): (i: nat)
    ensures i <= |s|
    ensures i < |s| ==> p(s[i])
    ensures forall k :: 0 <= k < i ==> !p(s[k])
  {
    if |s| == 0 || p(s[0]) then 0 else 1 + Find(s[1..], p)
  }

  /** Number of occurrences of `c` in `s`. */
  function Count(s: string, c: char): nat
  {
    if |s| == 0 then 0 else (if s[0] == c then 1 else 0) + Count(s[1..], c)
  }

  lemma {:induction false} CountConcat(a: string, b: string, c: char)
    ensures Count(a + b, c) == Count(a, c) + Count(b, c)
  {
    if |a| == 0 {
      assert a + b == b;
    } else {
      assert (a + b)[1..] == a[1..] + b;
      CountConcat(a[1..], b, c);
    }
  }

  lemma {:induction false} CountZero(s: string, c: char)
    ensures Count(s, c) == 0 <==> c !in s
  {
    if |s| > 0 {
      CountZero(s[1..], c);
      assert s == [s[0]] + s[1..];
    }
  }

  /** `s.lstrip()`: a suffix of `s` obtained by dropping leading whitespace only. */
  function LStrip(s: string): (t: string)
    ensures |t| <= |s| && t == s[|s| - |t|..]
    ensures AllSpace(s[..|s| - |t|])
    ensures |t| > 0 ==> !IsSpace(t[0])
  {
    if |s| > 0 && IsSpace(s[0]) then LStrip(s[1..]) else s
  }

  /** `s.rstrip()`: a prefix of `s` obtained by dropping trailing whitespace only. */
  function RStrip(s: string): (t: string)
    ensures |t| <= |s| && t == s[..|t|]
    ensures AllSpace(s[|t|..])
    ensures |t| > 0 ==> !IsSpace(t[|t| - 1])
  {
    if |s| > 0 && IsSpace(s[|s| - 1]) then RStrip(s[..|s| - 1]) else s
  }

  /** `s.strip()`: `s` with whitespace removed at both ends. */
  function Strip(s: string): (t: string)
    ensures IsStripped(t)
    ensures |t| <= |s|
  {
    RStrip(LStrip(s))
  }

  /** Strip removes only whitespace, and only at the ends: its result sits in
      `s` between an all-whitespace prefix and an all-whitespace suffix. */
  lemma {:induction false} StripShape(s: string)
    ensures exists i :: Padded(s, i, Strip(s))
  {
    var l := LStrip(s);
    var i := |s| - |l|;
    assert Strip(s) == RStrip(l);
    PaddedIntro(s, i, l, RStrip(l));
    assert Padded(s, i, Strip(s));
  }

  lemma PaddedIntro(s: string, i: nat, l: string, t: string)
    requires i <= |s| && l == s[i..] && AllSpace(s[..i])
    requires |t| <= |l| && t == l[..|t|] && AllSpace(l[|t|..])
    ensures Padded(s, i, t)
  {
    assert s[i..i + |t|] == t;
    assert s[i + |t|..] == l[|t|..];
  }

  /** `s` is `t` with `i` whitespace characters before it and only whitespace after it. */
  predicate Padded(s: string, i: nat, t: string)
  {
    && i + |t| <= |s|
    && s[i..i + |t|] == t
    && AllSpace(s[..i])
    && AllSpace(s[i + |t|..])
  }

  lemma {:induction false} LStripPadded(p: string, t: string)
    requires AllSpace(p)
    requires |t| == 0 || !IsSpace(t[0])
    ensures LStrip(p + t) == t
  {
    if |p| == 0 {
      assert p + t == t;
    } else {
      assert (p + t)[1..] == p[1..] + t;
      LStripPadded(p[1..], t);
    }
  }

  lemma {:induction false} RStripPadded(t: string, q: string)
    requires AllSpace(q)
    requires |t| == 0 || !IsSpace(t[|t| - 1])
    ensures RStrip(t + q) == t
  {
    if |q| == 0 {
      assert t + q == t;
    } else {
      assert (t + q)[..|t + q| - 1] == t + q[..|q| - 1];
      RStripPadded(t, q[..|q| - 1]);
    }
  }

  /** Strip is determined by its result: padding a stripped string with any
      whitespace on either side and stripping gives the string back. */
  lemma StripPadded(p: string, t: string, q: string)
    requires AllSpace(p) && AllSpace(q) && IsStripped(t)
    ensures Strip(p + t + q) == t
  {
    if |t| == 0 {
      assert p + t + q == p + q;
      LStripPadded(p + q, []);
      assert p + q + [] == p + q;
      assert LStrip(p + q) == [];
    } else {
      assert p + t + q == p + (t + q);
      LStripPadded(p, t + q);
      RStripPadded(t, q);
    }
  }

  /** A string without surrounding whitespace is left unchanged by Strip. */
  lemma StrippedFixed(t: string)
    requires IsStripped(t)
    ensures Strip(t) == t
  {
    assert [] + t + [] == t;
    StripPadded([], t, []);
  }

  lemma StripIdempotent(s: string)
    ensures Strip(Strip(s)) == Strip(s)
  {
    StrippedFixed(Strip(s));
  }

  /** Python `s.split(sep, maxsplit)` for a one-character separator: cut at the
      first `maxsplit` occurrences of `sep`, from the left; the last piece keeps
      any further separators. Consecutive separators give empty pieces. */
  function Split(s: string, sep: char, maxsplit: nat): (parts: seq<string>)
    ensures 1 <= |parts| <= maxsplit + 1
    ensures forall k :: 0 <= k < |parts| - 1 ==> sep !in parts[k]
    decreases maxsplit
  {
    var i := Find(s, Equals(sep));
    if maxsplit == 0 || i == |s| then [s]
    else [s[..i]] + Split(s[i + 1..], sep, maxsplit - 1)
  }

  /** Python `sep.join(parts)` for a one-character separator. */
  function Join(parts: seq<string>, sep: char): string
  {
    if |parts| == 0 then ""
    else if |parts| == 1 then parts[0]
    else parts[0] + [sep] + Join(parts[1..], sep)
  }

  function Min(a: nat, b: nat): nat
  {
    if a <= b then a else b
  }

  /** Splitting loses nothing: joining the pieces back with the separator
      restores the input exactly. */
  lemma {:induction false} JoinSplit(s: string, sep: char, maxsplit: nat)
    ensures Join(Split(s, sep, maxsplit), sep) == s
    decreases maxsplit
  {
    var i := Find(s, Equals(sep));
    if maxsplit > 0 && i < |s| {
      var head, rest := s[..i], s[i + 1..];
      assert s == head + [sep] + rest;
      assert sep !in head;
      SplitStep(head, sep, rest, maxsplit);
      JoinSplit(rest, sep, maxsplit - 1);
      JoinCons(head, Split(rest, sep, maxsplit - 1), sep);
    }
  }

  lemma JoinCons(head: string, tail: seq<string>, sep: char)
    requires |tail| >= 1
    ensures Join([head] + tail, sep) == head + [sep] + Join(tail, sep)
  {
    assert ([head] + tail)[1..] == tail;
  }

  /** The number of pieces is one more than the number of cuts, and a cut is
      made at every separator until `maxsplit` is reached. */
  lemma {:induction false} SplitCount(s: string, sep: char, maxsplit: nat)
    ensures |Split(s, sep, maxsplit)| == Min(maxsplit, Count(s, sep)) + 1
    decreases maxsplit
  {
    var i := Find(s, Equals(sep));
    if i == |s| {
      assert sep !in s;
      CountZero(s, sep);
    } else if maxsplit > 0 {
      assert s == s[..i] + ([sep] + s[i + 1..]);
      assert sep !in s[..i];
      CountZero(s[..i], sep);
      CountConcat(s[..i], [sep] + s[i + 1..], sep);
      CountConcat([sep], s[i + 1..], sep);
      SplitCount(s[i + 1..], sep, maxsplit - 1);
    }
  }

  lemma FindAfterPrefix(a: string, sep: char, b: string)
    requires sep !in a
    ensures Find(a + [sep] + b, Equals(sep)) == |a|
  {
    var s := a + [sep] + b;
    var i := Find(s, Equals(sep));
    assert Equals(sep)(s[|a|]);
    assert forall k :: 0 <= k < |a| ==> s[k] == a[k];
  }

  lemma SplitWhole(s: string, sep: char, maxsplit: nat)
    requires maxsplit == 0 || sep !in s
    ensures Split(s, sep, maxsplit) == [s]
  {
    if maxsplit > 0 {
      assert Find(s, Equals(sep)) == |s|;
    }
  }

  lemma SplitStep(head: string, sep: char, rest: string, maxsplit: nat)
    requires sep !in head
    requires maxsplit > 0
    ensures Split(head + [sep] + rest, sep, maxsplit) == [head] + Split(rest, sep, maxsplit - 1)
  {
    var s := head + [sep] + rest;
    FindAfterPrefix(head, sep, rest);
    assert s[..|head|] == head;
    assert s[|head| + 1..] == rest;
  }

  lemma SplitJoinCons(head: string, tail: seq<string>, sep: char, maxsplit: nat)
    requires sep !in head && maxsplit > 0 && |tail| >= 1
    requires Split(Join(tail, sep), sep, maxsplit - 1) == tail
    ensures Split(Join([head] + tail, sep), sep, maxsplit) == [head] + tail
  {
    JoinCons(head, tail, sep);
    SplitStep(head, sep, Join(tail, sep), maxsplit);
  }

  /** Joining is undone by splitting, for any pieces Split itself could have
      produced: every piece but the last is free of the separator, and so is
      the last unless `maxsplit` cuts were made. */
  lemma {:induction false} SplitJoin(parts: seq<string>, sep: char, maxsplit: nat)
    requires 1 <= |parts| <= maxsplit + 1
    requires forall k :: 0 <= k < |parts| - 1 ==> sep !in parts[k]
    requires |parts| <= maxsplit ==> sep !in parts[|parts| - 1]
    ensures Split(Join(parts, sep), sep, maxsplit) == parts
    decreases maxsplit
  {
    if |parts| == 1 {
      SplitWhole(parts[0], sep, maxsplit);
      assert Join(parts, sep) == parts[0];
      assert parts == [parts[0]];
    } else {
      var head, tail := parts[0], parts[1..];
      assert parts == [head] + tail;
      assert Split(Join([head] + tail, sep), sep, maxsplit) == [head] + tail by {
        SplitJoinTail(parts, sep, maxsplit);
        SplitJoin(tail, sep, maxsplit - 1);
        SplitJoinCons(head, tail, sep, maxsplit);
      }
    }
  }

  lemma SplitJoinTail(parts: seq<string>, sep: char, maxsplit: nat)
    requires 2 <= |parts| <= maxsplit + 1
    requires forall k :: 0 <= k < |parts| - 1 ==> sep !in parts[k]
    requires |parts| <= maxsplit ==> sep !in parts[|parts| - 1]
    ensures sep !in parts[0]
    ensures forall k :: 0 <= k < |parts[1..]| - 1 ==> sep !in parts[1..][k]
    ensures |parts[1..]| <= maxsplit - 1 ==> sep !in parts[1..][|parts[1..]| - 1]
  {
    var tail := parts[1..];
    forall k | 0 <= k < |tail| - 1 ensures sep !in tail[k] {
      assert tail[k] == parts[k + 1];
    }
    assert tail[|tail| - 1] == parts[|parts| - 1];
  }
}
