/** The string operations the crawler uses: prefix and suffix tests, `rstrip`, and the
    first and last fields of `split`. */
module Text {

  /** Python's `s.startswith(p)`. */
  predicate StartsWith(s: string, p: string)
  {
    |p| <= |s| && s[..|p|] == p
  }

  /** Python's `s.endswith(p)`. */
  predicate EndsWith(s: string, p: string)
  {
    |p| <= |s| && s[|s| - |p|..] == p
  }

  /** Python's `s.rstrip(c)` for a single character `c`: the longest prefix of `s` that does
      not end in `c` and after which only copies of `c` follow. */
  function StripTrailing(s: string, c: char): (r: string)
    ensures |r| <= |s| && r == s[..|r|]
    ensures r == [] || r[|r| - 1] != c
    ensures forall i :: |r| <= i < |s| ==> s[i] == c
  {
    if s != [] && s[|s| - 1] == c then StripTrailing(s[..|s| - 1], c) else s
  }

  /** Python's `s.split(c)[-1]`: the part of `s` after its last `c`, or all of `s`. */
  function AfterLast(s: string, c: char): (r: string)
    ensures c !in r
    ensures EndsWith(s, r)
    ensures |r| == |s| || s[|s| - |r| - 1] == c
  {
    if s == [] || s[|s| - 1] == c then [] else AfterLast(s[..|s| - 1], c) + [s[|s| - 1]]
  }

  /** Python's `s.split(c)[0]`: the part of `s` before its first `c`, or all of `s`. */
  function BeforeFirst(s: string, c: char): (r: string)
    ensures c !in r
    ensures StartsWith(s, r)
    ensures |r| == |s| || s[|r|] == c
  {
    if s == [] || s[0] == c then [] else [s[0]] + BeforeFirst(s[1..], c)
  }

  /** Stripping is idempotent: a stripped string has nothing left to strip. */
  lemma StripTrailingIdempotent(s: string, c: char)
    ensures StripTrailing(StripTrailing(s, c), c) == StripTrailing(s, c)
  {
  }

  /** The last field of `dir + [c] + name` is `name` when `name` holds no `c`:
      a separator written between two parts is found again by `split(c)[-1]`. */
  lemma AfterLastJoin(dir: string, c: char, name: string)
    requires c !in name
    ensures AfterLast(dir + [c] + name, c) == name
  {
    var s := dir + [c] + name;
    var r := AfterLast(s, c);
    assert s[|dir|] == c;
    assert forall i :: |dir| < i < |s| ==> s[i] == name[i - |dir| - 1];
    assert |r| == |name|;
  }

  /** The first field of `name + [c] + rest` is `name` when `name` holds no `c`. */
  lemma BeforeFirstJoin(name: string, c: char, rest: string)
    requires c !in name
    ensures BeforeFirst(name + [c] + rest, c) == name
  {
    var s := name + [c] + rest;
    var r := BeforeFirst(s, c);
    assert s[|name|] == c;
    assert forall i :: 0 <= i < |name| ==> s[i] == name[i];
    assert |r| == |name|;
  }
}
