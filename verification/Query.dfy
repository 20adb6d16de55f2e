/** keep_parameter and make_query (remap/remap_db.c). */
module Query {
  import opened Common
  import opened StrMatch

  const AMP: bv8 := 38
  const EQ: bv8 := 61

  type Str = seq<bv8>

  // ---------------------------------------------------------------- which parameters are kept

  /** The name of a parameter: what comes before the first equals sign. */
  function Name(p: Str): (n: Str)
    ensures |n| <= |p| && EQ !in n && (n == p || (|n| < |p| && p[|n|] == EQ && p[..|n|] == n))
  {
    if p == [] || p[0] == EQ then [] else [p[0]] + Name(p[1..])
  }

  lemma {:induction false} NameIs(p: Str, n: nat)
    requires n <= |p| && (forall i :: 0 <= i < n ==> p[i] != EQ) && (n < |p| ==> p[n] == EQ)
    ensures Name(p) == p[..n]
    decreases n
  {
    if n > 0 {
      NameIs(p[1..], n - 1);
      assert p[..n] == [p[0]] + p[1..][..n - 1];
    }
  }

  /** The lists of a path; a list may be absent. */
  datatype Lists = Lists(ignore: Option<seq<Str>>, whitelist: Option<seq<Str>>)

  /** The pattern can be read and matches the name. */
  ghost predicate Means(pattern: Str, name: Str) { Lex(pattern).Some? && Glob(name, Lex(pattern).value) }

  ghost predicate Matched(name: Str, patterns: seq<Str>) {
    exists i :: 0 <= i < |patterns| && Means(patterns[i], name)
  }

  /** A parameter is kept unless an ignore pattern matches its name or there is a
      whitelist and no pattern of it does. */
  ghost predicate Kept(l: Lists, p: Str) {
    (l.ignore.Some? ==> !Matched(Name(p), l.ignore.value)) &&
    (l.whitelist.Some? ==> Matched(Name(p), l.whitelist.value))
  }

  /** Patterns that can be read, without an equals sign or a NUL as a literal. */
  ghost predicate ReadableAll(patterns: seq<Str>) {
    forall i :: 0 <= i < |patterns| ==> Readable(patterns[i], EQ) && Readable(patterns[i], 0)
  }

  ghost predicate ReadableLists(l: Lists) {
    (l.ignore.Some? ==> ReadableAll(l.ignore.value)) && (l.whitelist.Some? ==> ReadableAll(l.whitelist.value))
  }

  method AnyMatch(name: Str, behind: bv8, patterns: seq<Str>) returns (r: bool)
    requires forall i :: 0 <= i < |patterns| ==> Readable(patterns[i], behind)
    ensures r <==> Matched(name, patterns)
  {
    for i := 0 to |patterns|
      invariant forall j :: 0 <= j < i ==> !Means(patterns[j], name)
    {
      r := StrMatch.StrMatch(name, patterns[i], behind);
      if r {
        return;
      }
    }
    r := false;
  }

  /** strchr, or the end. */
  method NameEnd(p: Str) returns (n: nat)
    ensures n <= |p| && p[..n] == Name(p) && (n < |p| ==> p[n] == EQ)
  {
    n := 0;
    while n < |p| && p[n] != EQ
      invariant n <= |p| && forall i :: 0 <= i < n ==> p[i] != EQ
    {
      n := n + 1;
    }
    NameIs(p, n);
  }

  /** keep_parameter. */
  method KeepParameter(l: Lists, p: Str) returns (r: bool)
    requires ReadableLists(l)
    ensures r <==> Kept(l, p)
  {
    var n := NameEnd(p);
    var name, behind := p[..n], if n < |p| then p[n] else 0;
    assert behind == EQ || behind == 0;
    if l.ignore.Some? {
      var m := AnyMatch(name, behind, l.ignore.value);
      if m {
        return false;
      }
    }
    if l.whitelist.Some? {
      r := AnyMatch(name, behind, l.whitelist.value);
      return;
    }
    r := true;
  }
}
