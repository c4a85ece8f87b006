/** String and sequence helpers with the meaning Python gives them in the cleaner:
    `str.strip()`, `str.lower()`, `str.split()`, the `in` substring test and
    `sep.join(list)`. Whitespace and case are the ASCII parts of Python's rules. */
module Strings {

  /** Python's `str.isspace` on ASCII: tab, line feed, vertical tab, form feed,
      carriage return (9-13), the separators 28-31, and the space. */
  predicate IsSpace(c: char) {
    c == ' ' || ('\t' <= c <= '\r') || (28 <= c as int <= 31)
  }

  predicate AllSpace(s: string) {
    forall k :: 0 <= k < |s| ==> IsSpace(s[k])
  }

  predicate NoSpace(s: string) {
    forall k :: 0 <= k < |s| ==> !IsSpace(s[k])
  }

  /** `s.lstrip()`: what is left after dropping the leading whitespace (a
      suffix of `s`, by `TrimStartIsSuffix`). */
  function TrimStart(s: string): (r: string)
    ensures |r| <= |s|
    ensures AllSpace(s[..|s| - |r|])
    ensures r == [] || !IsSpace(r[0])
  {
    if s != [] && IsSpace(s[0]) then TrimStart(s[1..]) else s
  }

  lemma {:induction false} TrimStartIsSuffix(s: string)
    ensures TrimStart(s) == s[|s| - |TrimStart(s)|..]
  {
    if s != [] && IsSpace(s[0]) {
      TrimStartIsSuffix(s[1..]);
    }
  }

  /** `s.rstrip()`: the prefix left after dropping the trailing whitespace. */
  function TrimEnd(s: string): (r: string)
    ensures |r| <= |s| && r == s[..|r|]
    ensures forall k :: |r| <= k < |s| ==> IsSpace(s[k])
    ensures r == [] || !IsSpace(r[|r| - 1])
  {
    if s != [] && IsSpace(s[|s| - 1]) then TrimEnd(s[..|s| - 1]) else s
  }

  /** `s.strip()`. */
  function Strip(s: string): (r: string)
    ensures r == [] || (!IsSpace(r[0]) && !IsSpace(r[|r| - 1]))
  {
    TrimEnd(TrimStart(s))
  }

  /** Stripping is idempotent. */
  lemma StripIdempotent(s: string)
    ensures Strip(Strip(s)) == Strip(s)
  {
    var t := Strip(s);
    assert TrimStart(t) == t;
    assert TrimEnd(t) == t;
  }

  /** A string strips to "" exactly when it is whitespace only. */
  lemma StripEmptyIffAllSpace(s: string)
    ensures Strip(s) == "" <==> AllSpace(s)
  {
    if AllSpace(s) {
      AllSpaceStripsToEmpty(s);
    }
    if Strip(s) == "" {
      var u := TrimStart(s);
      var n := |s| - |u|;
      assert u[0..] == u;
      assert n == |s|;
      forall k | 0 <= k < |s| ensures IsSpace(s[k]) {
        assert s[..n][k] == s[k];
      }
    }
  }

  lemma {:induction false} AllSpaceStripsToEmpty(s: string)
    requires AllSpace(s)
    ensures TrimStart(s) == ""
    ensures Strip(s) == ""
  {
    if s != [] {
      AllSpaceStripsToEmpty(s[1..]);
    }
  }

  /** Whitespace around a string does not survive stripping. */
  lemma {:induction false} StripIgnoresPadding(p: string, s: string, q: string)
    requires AllSpace(p) && AllSpace(q)
    ensures Strip(p + s + q) == Strip(s)
  {
    TrimStartPadding(p, s + q);
    assert p + s + q == p + (s + q);
    if AllSpace(s) {
      assert AllSpace(s + q) by {
        forall k | 0 <= k < |s + q| ensures IsSpace((s + q)[k]) {
          if k < |s| { assert (s + q)[k] == s[k]; } else { assert (s + q)[k] == q[k - |s|]; }
        }
      }
      AllSpaceStripsToEmpty(s + q);
      AllSpaceStripsToEmpty(s);
    } else {
      TrimStartAppend(s, q);
      TrimEndPadding(TrimStart(s), q);
    }
  }

  lemma {:induction false} TrimStartPadding(p: string, s: string)
    requires AllSpace(p)
    ensures TrimStart(p + s) == TrimStart(s)
  {
    if p != [] {
      assert (p + s)[0] == p[0];
      assert (p + s)[1..] == p[1..] + s;
      TrimStartPadding(p[1..], s);
    } else {
      assert p + s == s;
    }
  }

  lemma {:induction false} TrimStartAppend(s: string, q: string)
    requires !AllSpace(s)
    ensures TrimStart(s + q) == TrimStart(s) + q
  {
    assert s != [];
    assert (s + q)[0] == s[0];
    if IsSpace(s[0]) {
      assert (s + q)[1..] == s[1..] + q;
      assert !AllSpace(s[1..]) by {
        var k :| 0 <= k < |s| && !IsSpace(s[k]);
        assert s[1..][k - 1] == s[k];
      }
      TrimStartAppend(s[1..], q);
    }
  }

  lemma {:induction false} TrimEndPadding(t: string, q: string)
    requires AllSpace(q)
    ensures TrimEnd(t + q) == TrimEnd(t)
  {
    if q != [] {
      var tq := t + q;
      assert tq[..|tq| - 1] == t + q[..|q| - 1];
      assert IsSpace(tq[|tq| - 1]);
      TrimEndPadding(t, q[..|q| - 1]);
    } else {
      assert t + q == t;
    }
  }

  /** ASCII `str.lower()` on one character. */
  function LowerChar(c: char): char {
    if 'A' <= c <= 'Z' then (c as int + 32) as char else c
  }

  function Lower(s: string): (r: string)
    ensures |r| == |s|
    ensures forall k :: 0 <= k < |r| ==> !('A' <= r[k] <= 'Z')
  {
    seq(|s|, k requires 0 <= k < |s| => LowerChar(s[k]))
  }

  /** Lowering never changes whitespace, so it commutes with stripping. */
  lemma LowerKeepsSpace(c: char)
    ensures IsSpace(LowerChar(c)) <==> IsSpace(c)
  {
  }

  lemma LowerIdempotent(s: string)
    ensures Lower(Lower(s)) == Lower(s)
  {
  }

  /** Lowering commutes with stripping, since it maps whitespace to whitespace
      and nothing else to whitespace. */
  lemma LowerStrip(s: string)
    ensures Lower(Strip(s)) == Strip(Lower(s))
  {
    LowerTrimStart(s);
    LowerTrimEnd(TrimStart(s));
  }

  lemma {:induction false} LowerTrimStart(s: string)
    ensures Lower(TrimStart(s)) == TrimStart(Lower(s))
  {
    if s != [] {
      assert Lower(s)[1..] == Lower(s[1..]);
      LowerKeepsSpace(s[0]);
      if IsSpace(s[0]) {
        LowerTrimStart(s[1..]);
      }
    }
  }

  lemma {:induction false} LowerTrimEnd(s: string)
    ensures Lower(TrimEnd(s)) == TrimEnd(Lower(s))
  {
    if s != [] {
      assert Lower(s)[..|s| - 1] == Lower(s[..|s| - 1]);
      LowerKeepsSpace(s[|s| - 1]);
      if IsSpace(s[|s| - 1]) {
        LowerTrimEnd(s[..|s| - 1]);
      }
    }
  }

  /** Python's `t in s` for strings: `t` occurs in `s` at some position. */
  function Contains(s: string, t: string): bool
    decreases |s|
  {
    if |t| > |s| then false
    else if s[..|t|] == t then true
    else Contains(s[1..], t)
  }

  /** `t` occurs in `s` starting at position `i`. */
  predicate OccursAt(s: string, t: string, i: int) {
    0 <= i <= |s| - |t| && s[i..i + |t|] == t
  }

  /** The recursive search agrees with "some slice of `s` is `t`". */
  lemma {:induction false} ContainsIffOccurs(s: string, t: string)
    ensures Contains(s, t) <==> exists i :: OccursAt(s, t, i)
    decreases |s|
  {
    if |t| > |s| {
    } else if s[..|t|] == t {
      assert OccursAt(s, t, 0);
    } else {
      ContainsIffOccurs(s[1..], t);
      if Contains(s[1..], t) {
        var i :| OccursAt(s[1..], t, i);
        assert s[i + 1..i + 1 + |t|] == s[1..][i..i + |t|];
        assert OccursAt(s, t, i + 1);
      } else {
        forall i | OccursAt(s, t, i) ensures false {
          if i > 0 {
            forall j | 0 <= j < |t| ensures s[1..][i - 1..i - 1 + |t|][j] == t[j] {
              assert s[i..i + |t|][j] == s[i + j];
            }
            assert s[1..][i - 1..i - 1 + |t|] == t;
            assert OccursAt(s[1..], t, i - 1);
          }
        }
      }
    }
  }

  /** `any(term in s for term in terms)`. */
  predicate ContainsAny(s: string, terms: seq<string>): (r: bool)
    ensures r <==> exists k, i :: 0 <= k < |terms| && OccursAt(s, terms[k], i)
  {
    ContainsEachIffOccurs(s, terms);
    exists k :: 0 <= k < |terms| && Contains(s, terms[k])
  }

  lemma ContainsEachIffOccurs(s: string, terms: seq<string>)
    ensures forall k :: 0 <= k < |terms| ==> (Contains(s, terms[k]) <==> exists i :: OccursAt(s, terms[k], i))
  {
    forall k | 0 <= k < |terms| ensures Contains(s, terms[k]) <==> exists i :: OccursAt(s, terms[k], i) {
      ContainsIffOccurs(s, terms[k]);
    }
  }

  /** `sep.join(xs)`. */
  function Join(xs: seq<string>, sep: string): (r: string)
    ensures xs == [] ==> r == ""
    ensures xs != [] ==> |xs[0]| <= |r| && r[..|xs[0]|] == xs[0]
  {
    if xs == [] then ""
    else if |xs| == 1 then xs[0]
    else xs[0] + sep + Join(xs[1..], sep)
  }

  /** `[x for x in xs if x]`: the non-empty entries, in order. */
  function NonEmpty(xs: seq<string>): (r: seq<string>)
    ensures forall x :: x in r <==> x in xs && x != ""
    ensures Subsequence(r, xs)
  {
    if xs == [] then []
    else if xs[0] != "" then [xs[0]] + NonEmpty(xs[1..])
    else NonEmpty(xs[1..])
  }

  /** Joining strings that are never empty gives "" exactly for the empty list. */
  lemma JoinEmptyIff(xs: seq<string>, sep: string)
    requires forall k :: 0 <= k < |xs| ==> xs[k] != ""
    ensures Join(xs, sep) == "" <==> xs == []
  {
    if xs != [] {
      assert xs[0] != "";
    }
  }

  /** The first word of `s` in Python's sense: the longest prefix free of
      whitespace. */
  function TakeWord(s: string): (w: string)
    ensures |w| <= |s| && w == s[..|w|]
    ensures NoSpace(w)
    ensures |w| == |s| || IsSpace(s[|w|])
  {
    if s == [] || IsSpace(s[0]) then "" else [s[0]] + TakeWord(s[1..])
  }

  /** `s.split()` with no separator: the maximal whitespace-free runs, in order. */
  function Words(s: string): (ws: seq<string>)
    ensures forall k :: 0 <= k < |ws| ==> ws[k] != "" && NoSpace(ws[k])
    decreases |s|
  {
    if s == [] then []
    else if IsSpace(s[0]) then Words(s[1..])
    else
      var w := TakeWord(s);
      [w] + Words(s[|w|..])
  }

  /** A string without leading whitespace has words exactly when it is
      non-empty, and its first word is the prefix before the first whitespace. */
  lemma FirstWord(s: string)
    requires s == [] || !IsSpace(s[0])
    ensures Words(s) == [] <==> s == []
    ensures s != [] ==> Words(s)[0] == TakeWord(s)
  {
  }

  /** `xs` is `ys` with some entries removed, the rest kept in order. */
  predicate Subsequence<T(==)>(xs: seq<T>, ys: seq<T>)
    decreases |ys|
  {
    xs == [] ||
    (ys != [] &&
     ((xs[0] == ys[0] && Subsequence(xs[1..], ys[1..])) || Subsequence(xs, ys[1..])))
  }

  /** Extending `ys` at the end keeps `xs` a subsequence, with or without the
      new element appended to `xs` as well. */
  lemma {:induction false} SubsequenceSnoc<T>(xs: seq<T>, ys: seq<T>, a: T)
    requires Subsequence(xs, ys)
    ensures Subsequence(xs, ys + [a])
    ensures Subsequence(xs + [a], ys + [a])
    decreases |ys|
  {
    if ys == [] {
      assert xs == [];
      assert ([] + [a])[1..] == [];
    } else {
      assert (ys + [a])[0] == ys[0];
      assert (ys + [a])[1..] == ys[1..] + [a];
      if xs == [] {
        SubsequenceSnoc(xs, ys[1..], a);
      } else {
        assert (xs + [a])[0] == xs[0];
        assert (xs + [a])[1..] == xs[1..] + [a];
        if xs[0] == ys[0] && Subsequence(xs[1..], ys[1..]) {
          SubsequenceSnoc(xs[1..], ys[1..], a);
        } else {
          SubsequenceSnoc(xs, ys[1..], a);
        }
      }
    }
  }

  /** Every element of a subsequence occurs in the longer sequence. */
  lemma {:induction false} SubsequenceMembers<T>(xs: seq<T>, ys: seq<T>)
    requires Subsequence(xs, ys)
    ensures forall x :: x in xs ==> x in ys
    decreases |ys|
  {
    if xs != [] {
      if xs[0] == ys[0] && Subsequence(xs[1..], ys[1..]) {
        SubsequenceMembers(xs[1..], ys[1..]);
        assert forall x :: x in xs ==> x == xs[0] || x in xs[1..];
      } else {
        SubsequenceMembers(xs, ys[1..]);
      }
    }
  }

  /** Every element has a distinct position. */
  predicate Distinct<T(==)>(xs: seq<T>) {
    forall i, j :: 0 <= i < j < |xs| ==> xs[i] != xs[j]
  }

  /** A sequence is distinct exactly when its head is not in its distinct tail. */
  lemma DistinctCons<T>(a: T, rest: seq<T>)
    ensures Distinct([a] + rest) <==> a !in rest && Distinct(rest)
  {
    var xs := [a] + rest;
    assert xs[1..] == rest;
    if a !in rest && Distinct(rest) {
      forall i, j | 0 <= i < j < |xs| ensures xs[i] != xs[j] {
        assert xs[j] == rest[j - 1];
        if i > 0 {
          assert xs[i] == rest[i - 1];
        }
      }
    }
    if Distinct(xs) {
      forall i, j | 0 <= i < j < |rest| ensures rest[i] != rest[j] {
        assert rest[i] == xs[i + 1] && rest[j] == xs[j + 1];
      }
      forall j | 0 <= j < |rest| ensures rest[j] != a {
        assert rest[j] == xs[j + 1] && a == xs[0];
      }
    }
  }
}
