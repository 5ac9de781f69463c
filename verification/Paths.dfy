/** Path strings of the in-memory filesystem and the component lists the
    resolver reads from them. A path is the characters before the terminator. */
module Paths {
  import opened Machine

  type Name = seq<char>

  const MAX_NAME: nat := 64
  const MAX_PARENT: nat := 256

  /** Length of the next component: up to a slash, the end, or 63 characters. */
  function ComponentLen(p: string, limit: nat): (n: nat)
    ensures n <= |p| && n <= limit
  {
    if p == [] || limit == 0 || p[0] == '/' then 0 else 1 + ComponentLen(p[1..], limit - 1)
  }

  lemma {:induction false} ComponentLenStops(p: string, limit: nat)
    ensures var n := ComponentLen(p, limit);
      && (forall i | 0 <= i < n :: p[i] != '/')
      && (n == |p| || n == limit || p[n] == '/')
  {
    if !(p == [] || limit == 0 || p[0] == '/') {
      ComponentLenStops(p[1..], limit - 1);
      assert forall i | 0 < i < ComponentLen(p, limit) :: p[i] == p[1..][i - 1];
    }
  }

  /** One slash skipped, if there is one. */
  function SkipSlash(p: string): (r: string)
    ensures |r| <= |p|
  {
    if p != [] && p[0] == '/' then p[1..] else p
  }

  /** The components the resolver sees: empty ones are dropped, and one longer
      than 63 characters is read as several. */
  function ParseUpTo(p: string, limit: nat): seq<Name>
    requires limit > 0
    decreases |p|
  {
    if p == [] then [] else
      ComponentLenStops(p, limit);
      var n := ComponentLen(p, limit);
      var rest := SkipSlash(p[n..]);
      if n == 0 then ParseUpTo(rest, limit) else [p[..n]] + ParseUpTo(rest, limit)
  }

  function Parse(p: string): seq<Name> {
    ParseUpTo(p, MAX_NAME - 1)
  }

  predicate IsAbsolute(path: string) {
    path != [] && path[0] == '/'
  }

  /** The component list of an absolute path. */
  function Components(path: string): seq<Name>
    requires IsAbsolute(path)
  {
    Parse(path[1..])
  }

  predicate GoodName(n: Name) {
    0 < |n| < MAX_NAME && forall i | 0 <= i < |n| :: n[i] != '/'
  }

  lemma {:induction false} ParseGood(p: string, limit: nat)
    requires 0 < limit < MAX_NAME
    ensures forall k | 0 <= k < |ParseUpTo(p, limit)| :: GoodName(ParseUpTo(p, limit)[k])
    decreases |p|
  {
    if p != [] {
      ComponentLenStops(p, limit);
      ParseGood(SkipSlash(p[ComponentLen(p, limit)..]), limit);
    }
  }

  /** The position of the last slash of an absolute path. */
  function LastSlash(path: string): (k: nat)
    requires IsAbsolute(path)
    ensures k < |path| && path[k] == '/' && forall i | k < i < |path| :: path[i] != '/'
  {
    var n := |path| - 1;
    if path[n] == '/' then n else
      var k := LastSlash(path[..n]);
      k
  }

  /** The characters after the last slash. */
  function BaseName(path: string): Name
    requires IsAbsolute(path)
  {
    path[LastSlash(path) + 1..]
  }

  /** What the parent resolver copies out: at most 63 characters of the base name. */
  function StoredName(path: string): Name
    requires IsAbsolute(path)
  {
    BaseName(path)[..Min(|BaseName(path)|, MAX_NAME - 1)]
  }

  /** What the parent resolver resolves: the text before the last slash, cut to 255 characters. */
  function ParentPath(path: string): string
    requires IsAbsolute(path)
  {
    path[..Min(LastSlash(path), MAX_PARENT - 1)]
  }

  /** The component list whose directory the parent resolver returns. */
  function ParentComponents(path: string): seq<Name>
    requires IsAbsolute(path)
  {
    if LastSlash(path) == 0 then [] else Components(ParentPath(path))
  }

  lemma {:induction false} ComponentLenAppend(a: string, b: string, limit: nat)
    ensures ComponentLen(a + ['/'] + b, limit) == ComponentLen(a, limit)
  {
    var s := a + ['/'] + b;
    if a != [] && limit > 0 && a[0] != '/' {
      assert s[1..] == a[1..] + ['/'] + b;
      ComponentLenAppend(a[1..], b, limit - 1);
    }
  }

  /** Parsing distributes over a slash. */
  lemma {:induction false} ParseAppend(a: string, b: string, limit: nat)
    requires limit > 0
    ensures ParseUpTo(a + ['/'] + b, limit) == ParseUpTo(a, limit) + ParseUpTo(b, limit)
    decreases |a|
  {
    if a == [] {
      var s := a + ['/'] + b;
      assert s == ['/'] + b && s[0..] == s && s[1..] == b;
    } else {
      var n := ComponentLen(a, limit);
      ComponentLenStops(a, limit);
      if n < |a| { ParseAppend(SkipSlash(a[n..]), b, limit); }
      ParseFirst(a, b, limit);
      Concat(if n == 0 then [] else [a[..n]], ParseUpTo(SkipSlash(a[n..]), limit), ParseUpTo(b, limit));
    }
  }

  /** The first component of `a` is the first component of `a/b`. */
  lemma ParseFirst(a: string, b: string, limit: nat)
    requires limit > 0 && a != []
    ensures ComponentLen(a, limit) <= |a|
    ensures var n, s := ComponentLen(a, limit), a + ['/'] + b;
      var first := if n == 0 then [] else [a[..n]];
      && ParseUpTo(a, limit) == first + ParseUpTo(SkipSlash(a[n..]), limit)
      && ParseUpTo(s, limit) == first + ParseUpTo(if n == |a| then b else SkipSlash(a[n..]) + ['/'] + b, limit)
  {
    var n := ComponentLen(a, limit);
    ComponentLenStops(a, limit);
    ComponentLenAppend(a, b, limit);
    TakeAppend(a, n, b);
    SkipAppend(a, n, b);
  }

  lemma Concat(x: seq<Name>, y: seq<Name>, z: seq<Name>)
    ensures x + (y + z) == x + y + z && [] + z == z && x + [] == x
  {}

  lemma TakeAppend(a: string, n: nat, b: string)
    requires n <= |a|
    ensures (a + ['/'] + b)[..n] == a[..n]
  {}

  lemma SkipAppend(a: string, n: nat, b: string)
    requires n <= |a|
    ensures var s := a + ['/'] + b;
      SkipSlash(s[n..]) == if n == |a| then b else SkipSlash(a[n..]) + ['/'] + b
  {
    var s := a + ['/'] + b;
    assert s[n..] == a[n..] + ['/'] + b;
    if n < |a| && a[n] == '/' {
      assert s[n..][1..] == a[n..][1..] + ['/'] + b;
    } else if n == |a| {
      assert s[n..][1..] == b;
    }
  }

  lemma {:induction false} PlainComponent(n: string, limit: nat)
    requires forall i | 0 <= i < |n| :: n[i] != '/'
    ensures ComponentLen(n, limit) == Min(|n|, limit)
  {
    if n != [] && limit > 0 { PlainComponent(n[1..], limit - 1); }
  }

  /** A slash-free name is read in chunks of `limit` characters. */
  lemma ParsePlain(n: string, limit: nat)
    requires limit > 0 && n != [] && forall i | 0 <= i < |n| :: n[i] != '/'
    ensures |n| <= limit ==> ParseUpTo(n, limit) == [n]
    ensures |n| > limit ==>
              ParseUpTo(n, limit) == [n[..limit]] + ParseUpTo(n[limit..], limit) && ParseUpTo(n[limit..], limit) != []
  {
    PlainComponent(n, limit);
    var k := ComponentLen(n, limit);
    var rest := n[k..];
    assert SkipSlash(rest) == rest by { if rest != [] { assert rest[0] == n[k]; } }
    if |n| <= limit {
      assert n[..k] == n && rest == [];
    } else {
      PlainComponent(rest, limit);
      assert ParseUpTo(rest, limit) != [];
    }
  }

  /** The components before the last slash, of whatever length. */
  function FullParent(path: string): seq<Name>
    requires IsAbsolute(path)
  {
    if LastSlash(path) == 0 then [] else Parse(path[..LastSlash(path)][1..])
  }

  /** Every absolute path reads as its parent's components followed by the pieces of its
      base name, and the parent resolver sees that parent if it has at most 255 characters. */
  lemma ParseParent(path: string)
    requires IsAbsolute(path)
    ensures Components(path) == FullParent(path) + Parse(BaseName(path))
    ensures LastSlash(path) < MAX_PARENT ==> ParentComponents(path) == FullParent(path)
  {
    ParseParentUpTo(path, MAX_NAME - 1);
  }

  /** The two resolvers agree on a path: it reads as the resolved directory and the stored name. */
  predicate Agrees(path: string)
    requires IsAbsolute(path)
  {
    Components(path) == ParentComponents(path) + [StoredName(path)]
  }

  /** They agree exactly on base names of 1 to 63 characters under a parent that reads the
      same when cut to 255 characters. */
  lemma AgreesIff(path: string)
    requires IsAbsolute(path)
    ensures Agrees(path) <==> 0 < |BaseName(path)| < MAX_NAME && ParentComponents(path) == FullParent(path)
  {
    var base := BaseName(path);
    ParseParent(path);
    CutParent(path);
    ParseGood(path[1..], MAX_NAME - 1);
    if base != [] { ParsePlain(base, MAX_NAME - 1); }
    SplitIff(FullParent(path), Parse(base), ParentComponents(path), StoredName(path));
  }

  lemma SplitIff(whole: seq<Name>, pieces: seq<Name>, seen: seq<Name>, last: Name)
    requires |seen| <= |whole|
    ensures |pieces| >= 2 ==> whole + pieces != seen + [last]
    ensures pieces == [last] ==> (whole + pieces == seen + [last] <==> seen == whole)
    ensures last !in whole + pieces ==> whole + pieces != seen + [last]
  {
    assert (seen + [last])[|seen|] == last && (seen + [last])[..|seen|] == seen;
    if pieces == [last] && whole + pieces == seen + [last] { assert (whole + pieces)[..|whole|] == whole; }
  }

  /** Cutting the parent to 255 characters cannot add components. */
  lemma CutParent(path: string)
    requires IsAbsolute(path)
    ensures |ParentComponents(path)| <= |FullParent(path)|
  {
    var k := LastSlash(path);
    if k > 0 {
      CutPrefix(path, Min(k, MAX_PARENT - 1), k);
      ParsePrefix(ParentPath(path)[1..], path[..k][1..], MAX_NAME - 1);
    }
  }

  lemma CutPrefix(path: string, i: nat, k: nat)
    requires 0 < i <= k <= |path|
    ensures path[..i][1..] <= path[..k][1..]
  {}

  lemma {:induction false} ParsePrefix(q: string, p: string, limit: nat)
    requires limit > 0 && q <= p
    ensures |ParseUpTo(q, limit)| <= |ParseUpTo(p, limit)|
    decreases |p|
  {
    if q != [] {
      var n := ComponentLen(p, limit);
      PrefixComponent(q, p, limit);
      ParseCount(q, limit);
      ParseCount(p, limit);
      if n < |q| {
        SkipShorter(p, limit);
        SkipPrefix(q, p, n);
        ParsePrefix(SkipSlash(q[n..]), SkipSlash(p[n..]), limit);
      } else {
        assert q[|q|..] == [];
      }
    }
  }

  lemma ParseCount(p: string, limit: nat)
    requires limit > 0 && p != []
    ensures var n := ComponentLen(p, limit);
      |ParseUpTo(p, limit)| == (if n == 0 then 0 else 1) + |ParseUpTo(SkipSlash(p[n..]), limit)|
  {}

  lemma SkipShorter(p: string, limit: nat)
    requires limit > 0 && p != []
    ensures |SkipSlash(p[ComponentLen(p, limit)..])| < |p|
  {
    ComponentLenStops(p, limit);
  }

  lemma SkipPrefix(q: string, p: string, n: nat)
    requires n < |q| && q <= p
    ensures SkipSlash(q[n..]) <= SkipSlash(p[n..])
  {}

  lemma {:induction false} PrefixComponent(q: string, p: string, limit: nat)
    requires q <= p
    ensures ComponentLen(q, limit) == Min(|q|, ComponentLen(p, limit))
  {
    if q != [] && limit > 0 && p[0] != '/' {
      PrefixComponent(q[1..], p[1..], limit - 1);
    }
  }

  lemma ParseParentUpTo(path: string, limit: nat)
    requires IsAbsolute(path) && limit > 0
    ensures ParseUpTo(path[1..], limit) ==
            (if LastSlash(path) == 0 then [] else ParseUpTo(path[..LastSlash(path)][1..], limit))
            + ParseUpTo(BaseName(path), limit)
  {
    var k := LastSlash(path);
    if k == 0 {
      NothingBefore(ParseUpTo(BaseName(path), limit));
    } else {
      ParseAt(path, k, limit);
    }
  }

  lemma NothingBefore(names: seq<Name>)
    ensures [] + names == names
  {}

  lemma SplitAt(path: string, k: nat)
    requires 1 <= k < |path| && path[k] == '/'
    ensures path[1..] == path[..k][1..] + ['/'] + path[k + 1..]
  {}

  lemma ParseAt(path: string, k: nat, limit: nat)
    requires limit > 0 && 1 <= k < |path| && path[k] == '/'
    ensures ParseUpTo(path[1..], limit) == ParseUpTo(path[..k][1..], limit) + ParseUpTo(path[k + 1..], limit)
  {
    SplitAt(path, k);
    ParseAppend(path[..k][1..], path[k + 1..], limit);
  }
}
