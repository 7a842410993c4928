/**
 * Python's string methods as the repository's scripts use them: `split` on a one-character
 * separator (with and without `maxsplit=1`), `replace` (every occurrence, including the empty
 * pattern), `lower` and indexing with `[-1]`.
 */
module PyStr {

  /** `p` occurs in `s` starting at position `i`. */
  predicate OccursAt(s: string, p: string, i: nat) {
    i + |p| <= |s| && s[i..i + |p|] == p
  }

  /** Joins `parts` with the separator `c` between neighbours (Python's `c.join(parts)`). */
  function Join(parts: seq<string>, c: char): (s: string)
    requires |parts| >= 1
    decreases |parts|
  {
    if |parts| == 1 then parts[0] else parts[0] + [c] + Join(parts[1..], c)
  }

  /** The number of occurrences of the character `c` in `s`. */
  function CountChar(s: string, c: char): nat {
    if s == [] then 0 else (if s[0] == c then 1 else 0) + CountChar(s[1..], c)
  }

  lemma {:induction false} CountCharZero(s: string, c: char)
    ensures CountChar(s, c) == 0 <==> c !in s
  {
    if s != [] {
      CountCharZero(s[1..], c);
      assert s == [s[0]] + s[1..];
    }
  }

  /**
   * Python's `s.split(c)` for a one-character separator: the maximal runs of `s` between
   * occurrences of `c`, so there is one more part than there are separators.
   */
  function Split(s: string, c: char): (parts: seq<string>)
    ensures |parts| == CountChar(s, c) + 1
    ensures forall i :: 0 <= i < |parts| ==> c !in parts[i]
    ensures Join(parts, c) == s
    decreases |s|
  {
    if s == [] then [""]
    else if s[0] == c then [""] + Split(s[1..], c)
    else
      var rest := Split(s[1..], c);
      assert c !in [s[0]] + rest[0];
      JoinConsHead(s[0], rest, c);
      [[s[0]] + rest[0]] + rest[1..]
  }

  lemma JoinConsHead(x: char, parts: seq<string>, c: char)
    requires |parts| >= 1
    ensures Join([[x] + parts[0]] + parts[1..], c) == [x] + Join(parts, c)
  {
    var q := [[x] + parts[0]] + parts[1..];
    assert q[1..] == parts[1..];
  }

  /** Splitting a joined sequence of separator-free parts gives the parts back. */
  lemma {:induction false} SplitJoin(parts: seq<string>, c: char)
    requires |parts| >= 1
    requires forall i :: 0 <= i < |parts| ==> c !in parts[i]
    ensures Split(Join(parts, c), c) == parts
    decreases |parts|
  {
    if |parts| == 1 {
      SplitNoSeparator(parts[0], c);
    } else {
      var rest := parts[1..];
      assert forall i :: 0 <= i < |rest| ==> c !in rest[i] by {
        forall i | 0 <= i < |rest| ensures c !in rest[i] {
          assert rest[i] == parts[i + 1];
        }
      }
      SplitJoin(rest, c);
      assert c !in parts[0];
      SplitFirstField(parts[0], Join(rest, c), c);
      assert parts == [parts[0]] + rest;
    }
  }

  lemma SplitAfterSeparator(s: string, c: char)
    ensures Split([c] + s, c) == [""] + Split(s, c)
  {
    assert ([c] + s)[1..] == s;
  }

  lemma SplitAfterOther(x: char, s: string, c: char)
    requires x != c
    ensures Split([x] + s, c) == [[x] + Split(s, c)[0]] + Split(s, c)[1..]
  {
    assert ([x] + s)[1..] == s;
  }

  lemma {:induction false} SplitNoSeparator(s: string, c: char)
    requires c !in s
    ensures Split(s, c) == [s]
    decreases |s|
  {
    if s != [] {
      assert c !in s[1..] by {
        assert forall k :: 0 <= k < |s[1..]| ==> s[1..][k] == s[k + 1];
      }
      SplitNoSeparator(s[1..], c);
      assert [s[0]] + s[1..] == s;
    }
  }

  /** A field exists beyond the first exactly when the separator occurs. */
  lemma SplitHasSecondField(s: string, c: char)
    ensures |Split(s, c)| >= 2 <==> c in s
  {
    CountCharZero(s, c);
  }

  /** The first field of `Split(a + [c] + b, c)` is `a` when `a` has no separator. */
  lemma {:induction false} SplitFirstField(a: string, b: string, c: char)
    requires c !in a
    ensures Split(a + [c] + b, c) == [a] + Split(b, c)
    decreases |a|
  {
    if a == [] {
      assert a + [c] + b == [c] + b;
      SplitAfterSeparator(b, c);
    } else {
      var tail := a[1..] + [c] + b;
      assert a + [c] + b == [a[0]] + tail;
      assert c !in a[1..] by {
        assert forall k :: 0 <= k < |a[1..]| ==> a[1..][k] == a[k + 1];
      }
      SplitFirstField(a[1..], b, c);
      SplitAfterOther(a[0], tail, c);
      assert [a[0]] + a[1..] == a;
    }
  }

  /** The index of the first `c` in `s`, or `|s|` when there is none. */
  function IndexOf(s: string, c: char): (k: nat)
    ensures k <= |s|
    ensures c !in s[..k]
    ensures k < |s| ==> s[k] == c
    ensures k == |s| <==> c !in s
    decreases |s|
  {
    if s == [] then 0
    else if s[0] == c then 0
    else
      var k := 1 + IndexOf(s[1..], c);
      assert s[..k] == [s[0]] + s[1..][..k - 1];
      k
  }

  /** Python's `s.split(c, 1)`: the text before the first `c` and, when there is one, the text after it. */
  function SplitMax1(s: string, c: char): (parts: seq<string>)
    ensures 1 <= |parts| <= 2
    ensures c !in parts[0]
    ensures |parts| == 1 <==> c !in s
    ensures |parts| == 1 ==> parts[0] == s
    ensures |parts| == 2 ==> s == parts[0] + [c] + parts[1]
  {
    var k := IndexOf(s, c);
    if k == |s| then [s] else assert s == s[..k] + [c] + s[k + 1..]; [s[..k], s[k + 1..]]
  }

  /** With `maxsplit=1` the first field is the same as with an unlimited split. */
  lemma SplitMax1FirstField(s: string, c: char)
    ensures SplitMax1(s, c)[0] == Split(s, c)[0]
  {
    var parts := SplitMax1(s, c);
    if |parts| == 1 {
      SplitNoSeparator(s, c);
    } else {
      SplitFirstField(parts[0], parts[1], c);
    }
  }

  /** `m` interleaved after every character of `s`: the tail of Python's `s.replace("", m)`. */
  function AfterEachChar(s: string, m: string): string {
    if s == [] then [] else [s[0]] + m + AfterEachChar(s[1..], m)
  }

  /**
   * Python's `s.replace(pat, sub)`: scanning left to right, every non-overlapping occurrence of a
   * non-empty `pat` becomes `sub`; an empty `pat` puts `sub` before every character and at the end.
   */
  function Replace(s: string, pat: string, sub: string): string
    decreases |s|
  {
    if pat == [] then sub + AfterEachChar(s, sub)
    else if OccursAt(s, pat, 0) then sub + Replace(s[|pat|..], pat, sub)
    else if s == [] then []
    else [s[0]] + Replace(s[1..], pat, sub)
  }

  /** An occurrence at the start is replaced. */
  lemma ReplaceLeading(pat: string, s: string, sub: string)
    requires pat != []
    ensures Replace(pat + s, pat, sub) == sub + Replace(s, pat, sub)
  {
    assert (pat + s)[..|pat|] == pat;
    assert (pat + s)[|pat|..] == s;
  }

  /** Replacing the empty string inserts `sub` at all |s| + 1 positions. */
  lemma {:induction false} ReplaceEmptyLength(s: string, sub: string)
    ensures |Replace(s, "", sub)| == |s| + (|s| + 1) * |sub|
  {
    AfterEachCharLength(s, sub);
  }

  lemma {:induction false} AfterEachCharLength(s: string, m: string)
    ensures |AfterEachChar(s, m)| == |s| * (1 + |m|)
  {
    if s != [] {
      AfterEachCharLength(s[1..], m);
    }
  }

  /** Shifting a position past a prefix `a` does not change what occurs there. */
  lemma OccursInSuffix(a: string, b: string, pat: string, i: nat)
    ensures OccursAt(a + b, pat, |a| + i) <==> OccursAt(b, pat, i)
  {
    if i + |pat| <= |b| {
      assert (a + b)[|a| + i..|a| + i + |pat|] == b[i..i + |pat|];
    }
  }

  /** A first character at which `pat` does not occur is copied. */
  lemma ReplaceCopiesHead(s: string, pat: string, sub: string)
    requires pat != [] && s != [] && !OccursAt(s, pat, 0)
    ensures Replace(s, pat, sub) == [s[0]] + Replace(s[1..], pat, sub)
  {
  }

  /** Dropping the first character of `a` keeps the prefix free of occurrences. */
  lemma NoOccurrenceInTail(a: string, b: string, pat: string)
    requires a != []
    requires forall i :: 0 <= i < |a| ==> !OccursAt(a + b, pat, i)
    ensures forall i :: 0 <= i < |a[1..]| ==> !OccursAt(a[1..] + b, pat, i)
  {
    var rest := a[1..] + b;
    assert a + b == [a[0]] + rest;
    forall i | 0 <= i < |a[1..]| ensures !OccursAt(rest, pat, i) {
      OccursInSuffix([a[0]], rest, pat, i);
      assert !OccursAt(a + b, pat, 1 + i);
    }
  }

  /** A prefix of `a + b` in which no occurrence of `pat` starts is copied unchanged. */
  lemma {:induction false} ReplaceKeepsPrefix(a: string, b: string, pat: string, sub: string)
    requires pat != []
    requires forall i :: 0 <= i < |a| ==> !OccursAt(a + b, pat, i)
    ensures Replace(a + b, pat, sub) == a + Replace(b, pat, sub)
    decreases |a|
  {
    if a != [] {
      var rest := a[1..] + b;
      assert (a + b)[0] == a[0] && (a + b)[1..] == rest;
      assert !OccursAt(a + b, pat, 0);
      ReplaceCopiesHead(a + b, pat, sub);
      NoOccurrenceInTail(a, b, pat);
      ReplaceKeepsPrefix(a[1..], b, pat, sub);
      var tail := Replace(b, pat, sub);
      calc {
        Replace(a + b, pat, sub);
        [a[0]] + (a[1..] + tail);
        { assert [a[0]] + (a[1..] + tail) == ([a[0]] + a[1..]) + tail; }
        ([a[0]] + a[1..]) + tail;
        { assert [a[0]] + a[1..] == a; }
        a + tail;
      }
    } else {
      assert a + b == b;
    }
  }

  /** A leading character that does not start the pattern is copied. */
  lemma ReplaceAtChar(c: char, q: string, pat: string, sub: string)
    requires pat != [] && c != pat[0]
    ensures Replace([c] + q, pat, sub) == [c] + Replace(q, pat, sub)
  {
    var b := [c] + q;
    assert !OccursAt(b, pat, 0) by {
      if |pat| <= |b| {
        assert b[..|pat|][0] == c;
      }
    }
    assert b[1..] == q;
  }

  /** Replacing in `a + b`, where `b` starts with a character the pattern lacks, works on each part. */
  lemma {:induction false} ReplaceBeforeChar(a: string, b: string, pat: string, sub: string)
    requires pat != [] && b != [] && b[0] !in pat
    ensures Replace(a + b, pat, sub) == Replace(a, pat, sub) + Replace(b, pat, sub)
    decreases |a|
  {
    if a == [] {
      assert a + b == b;
    } else if OccursAt(a, pat, 0) {
      calc {
        Replace(a + b, pat, sub);
        { MatchBeforeChar(a, b, pat, sub); }
        sub + Replace(a[|pat|..] + b, pat, sub);
        { ReplaceBeforeChar(a[|pat|..], b, pat, sub); }
        sub + (Replace(a[|pat|..], pat, sub) + Replace(b, pat, sub));
        (sub + Replace(a[|pat|..], pat, sub)) + Replace(b, pat, sub);
      }
    } else {
      calc {
        Replace(a + b, pat, sub);
        { SkipBeforeChar(a, b, pat, sub); }
        [a[0]] + Replace(a[1..] + b, pat, sub);
        { ReplaceBeforeChar(a[1..], b, pat, sub); }
        [a[0]] + (Replace(a[1..], pat, sub) + Replace(b, pat, sub));
        ([a[0]] + Replace(a[1..], pat, sub)) + Replace(b, pat, sub);
      }
    }
  }

  /** A match at the front of `a` is one at the front of `a + b`. */
  lemma MatchBeforeChar(a: string, b: string, pat: string, sub: string)
    requires pat != [] && OccursAt(a, pat, 0)
    ensures Replace(a + b, pat, sub) == sub + Replace(a[|pat|..] + b, pat, sub)
  {
    assert (a + b)[..|pat|] == a[..|pat|];
    assert (a + b)[|pat|..] == a[|pat|..] + b;
  }

  /** No match at the front of `a` runs on into a `b` that starts with a character the pattern lacks. */
  lemma SkipBeforeChar(a: string, b: string, pat: string, sub: string)
    requires pat != [] && a != [] && b != [] && b[0] !in pat && !OccursAt(a, pat, 0)
    ensures Replace(a + b, pat, sub) == [a[0]] + Replace(a[1..] + b, pat, sub)
  {
    var n := |pat|;
    assert !OccursAt(a + b, pat, 0) by {
      if n <= |a + b| {
        if n <= |a| {
          assert (a + b)[..n] == a[..n];
        } else {
          assert (a + b)[..n][|a|] == b[0];
        }
      }
    }
    assert (a + b)[1..] == a[1..] + b;
  }

  /** A prefix without the first character of the pattern is copied unchanged. */
  lemma {:induction false} ReplaceSkipsPrefix(a: string, b: string, pat: string, sub: string)
    requires pat != [] && pat[0] !in a
    ensures Replace(a + b, pat, sub) == a + Replace(b, pat, sub)
    decreases |a|
  {
    if a == [] {
      assert a + b == b;
    } else {
      SkipFirst(a, b, pat, sub);
      ReplaceSkipsPrefix(a[1..], b, pat, sub);
      calc {
        Replace(a + b, pat, sub);
        [a[0]] + Replace(a[1..] + b, pat, sub);
        [a[0]] + (a[1..] + Replace(b, pat, sub));
        ([a[0]] + a[1..]) + Replace(b, pat, sub);
        { assert [a[0]] + a[1..] == a; }
        a + Replace(b, pat, sub);
      }
    }
  }

  lemma SkipFirst(a: string, b: string, pat: string, sub: string)
    requires pat != [] && pat[0] !in a && a != []
    ensures pat[0] !in a[1..]
    ensures Replace(a + b, pat, sub) == [a[0]] + Replace(a[1..] + b, pat, sub)
  {
    assert a[1..] == a[1..|a|];
    assert a + b == [a[0]] + (a[1..] + b);
    ReplaceAtChar(a[0], a[1..] + b, pat, sub);
  }

  /** When a non-empty `pat` occurs nowhere in `s`, replacing leaves `s` unchanged. */
  lemma NoOccurrenceUnchanged(s: string, pat: string, sub: string)
    requires pat != []
    requires forall i :: 0 <= i < |s| ==> !OccursAt(s, pat, i)
    ensures Replace(s, pat, sub) == s
  {
    assert s + [] == s;
    ReplaceKeepsPrefix(s, [], pat, sub);
    assert !OccursAt([], pat, 0);
  }

  /** The single occurrence of `pat` in `a + pat + b` is the only thing that changes. */
  lemma ReplaceSingleOccurrence(a: string, pat: string, b: string, sub: string)
    requires pat != []
    requires forall i :: 0 <= i < |a + pat + b| && i != |a| ==> !OccursAt(a + pat + b, pat, i)
    ensures Replace(a + pat + b, pat, sub) == a + sub + b
  {
    var s := a + pat + b;
    assert s == a + (pat + b);
    ReplaceKeepsPrefix(a, pat + b, pat, sub);
    assert OccursAt(pat + b, pat, 0);
    assert (pat + b)[|pat|..] == b;
    forall i | 0 <= i < |b| ensures !OccursAt(b, pat, i) {
      assert s == (a + pat) + b;
      OccursInSuffix(a + pat, b, pat, i);
      assert !OccursAt(s, pat, |a| + |pat| + i);
    }
    NoOccurrenceUnchanged(b, pat, sub);
  }

  /** Replacing a pattern by itself changes nothing. */
  lemma {:induction false} ReplaceBySelf(s: string, pat: string)
    ensures Replace(s, pat, pat) == s
    decreases |s|
  {
    if pat == [] {
      AfterEachCharBySelf(s);
    } else if OccursAt(s, pat, 0) {
      ReplaceBySelf(s[|pat|..], pat);
      assert s == pat + s[|pat|..];
    } else if s != [] {
      ReplaceBySelf(s[1..], pat);
      assert s == [s[0]] + s[1..];
    }
  }

  lemma {:induction false} AfterEachCharBySelf(s: string)
    ensures AfterEachChar(s, "") == s
  {
    if s != [] {
      AfterEachCharBySelf(s[1..]);
      assert s == [s[0]] + s[1..];
    }
  }

  /** Python's `str.lower()` restricted to ASCII letters. */
  function LowerChar(c: char): char {
    if 'A' <= c <= 'Z' then (c as int + 32) as char else c
  }

  function Lower(s: string): (r: string)
    ensures |r| == |s|
    ensures forall i :: 0 <= i < |s| ==> r[i] == LowerChar(s[i])
  {
    seq(|s|, i requires 0 <= i < |s| => LowerChar(s[i]))
  }

  /** Lower-casing twice is lower-casing once. */
  lemma LowerIdempotent(s: string)
    ensures Lower(Lower(s)) == Lower(s)
  {
  }

  /** Python's `parts[-1]`. */
  function Last(parts: seq<string>): string
    requires |parts| >= 1
  {
    parts[|parts| - 1]
  }

  /** `s.split(c)[-1]` is the text after the last separator. */
  lemma {:induction false} SplitLastField(a: string, b: string, c: char)
    requires c !in b
    ensures Last(Split(a + [c] + b, c)) == b
    decreases |a|
  {
    if a == [] {
      assert a + [c] + b == [c] + b;
      SplitAfterSeparator(b, c);
      SplitNoSeparator(b, c);
    } else {
      var rest := a[1..] + [c] + b;
      assert a + [c] + b == [a[0]] + rest;
      SplitLastField(a[1..], b, c);
      assert rest[|a[1..]|] == c;
      SplitHasSecondField(rest, c);
      if a[0] == c {
        SplitAfterSeparator(rest, c);
      } else {
        SplitAfterOther(a[0], rest, c);
      }
    }
  }

  /** The text after the last `c`, or all of `s` when it has none, read from the end. */
  function AfterLast(s: string, c: char): string
    decreases |s|
  {
    if s == [] then []
    else if s[|s| - 1] == c then []
    else AfterLast(s[..|s| - 1], c) + [s[|s| - 1]]
  }

  /** Text without the separator is carried over whole. */
  lemma {:induction false} AfterLastAppend(p: string, b: string, c: char)
    requires c !in b
    ensures AfterLast(p + b, c) == AfterLast(p, c) + b
    decreases |b|
  {
    if b == [] {
      assert p + b == p;
    } else {
      var n := |b| - 1;
      AfterLastAppend(p, b[..n], c);
      assert (p + b)[..|p + b| - 1] == p + b[..n];
      assert b == b[..n] + [b[n]];
    }
  }

  /** The position of the last separator. */
  lemma {:induction false} LastSeparator(s: string, c: char) returns (k: nat)
    requires c in s
    ensures k < |s| && s[k] == c && c !in s[k + 1..]
    decreases |s|
  {
    var n := |s| - 1;
    if s[n] == c {
      k := n;
    } else {
      assert c in s[..n] by {
        var i :| 0 <= i < |s| && s[i] == c;
        assert s[..n][i] == c;
      }
      k := LastSeparator(s[..n], c);
      assert s[k + 1..] == s[..n][k + 1..] + [s[n]];
    }
  }

  /** `AfterLast` is Python's `s.split(c)[-1]`. */
  lemma AfterLastIsLastField(s: string, c: char)
    ensures AfterLast(s, c) == Last(Split(s, c))
  {
    if c !in s {
      AfterLastAppend([], s, c);
      assert [] + s == s;
      SplitLastNoSeparator(s, c);
    } else {
      var k := LastSeparator(s, c);
      var a, b := s[..k], s[k + 1..];
      assert s == a + [c] + b;
      SplitLastField(a, b, c);
      AfterLastAppend(a + [c], b, c);
      assert (a + [c])[|a + [c]| - 1] == c;
    }
  }

  /** Without a separator `s.split(c)[-1]` is the whole string. */
  lemma SplitLastNoSeparator(s: string, c: char)
    requires c !in s
    ensures Last(Split(s, c)) == s
  {
    SplitNoSeparator(s, c);
  }
}
