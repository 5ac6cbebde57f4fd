/** The two `posixpath`/`os.path` functions the library uses on URIs. */
module Paths {

  predicate StartsWithSlash(s: string)
  {
    |s| > 0 && s[0] == '/'
  }

  predicate EndsWithSlash(s: string)
  {
    |s| > 0 && s[|s| - 1] == '/'
  }

  /** A path segment that `join` appends without surprises and that the
      registry's id extraction can find again: non-empty and slash-free. */
  predicate PlainSegment(s: string)
  {
    |s| > 0 && '/' !in s
  }

  /** The directory prefix `join` puts in front of a relative component. */
  function Dir(a: string): (d: string)
    ensures a <= d
    ensures d == "" || EndsWithSlash(d)
  {
    if a == "" || EndsWithSlash(a) then a else a + "/"
  }

  /** `posixpath.join(a, b)`: an absolute `b` replaces `a`; otherwise `b` is
      appended after a separating slash unless `a` is empty or ends in one. */
  function Join(a: string, b: string): (p: string)
    ensures StartsWithSlash(b) ==> p == b
    ensures !StartsWithSlash(b) ==> p == Dir(a) + b
  {
    if StartsWithSlash(b) then b
    else if a == "" || EndsWithSlash(a) then a + b
    else a + "/" + b
  }

  /** `os.path.basename(p)`: the text after the last slash. */
  function Basename(p: string): (b: string)
    ensures '/' !in b
    ensures |b| <= |p| && p[|p| - |b|..] == b
    ensures |b| == |p| || p[|p| - |b| - 1] == '/'
  {
    if p == "" || p[|p| - 1] == '/' then ""
    else
      var b := Basename(p[..|p| - 1]) + [p[|p| - 1]];
      assert p[|p| - |b|..] == p[..|p| - 1][|p| - |b|..] + [p[|p| - 1]];
      b
  }

  /** Joining plain segments onto a directory spells the expected path. */
  lemma JoinPlain(a: string, b: string)
    requires PlainSegment(b)
    ensures Join(a, b) == Dir(a) + b
    ensures !EndsWithSlash(Join(a, b)) && Join(a, b) != ""
    ensures Dir(Join(a, b)) == Dir(a) + b + "/"
  {
  }

  /** Two plain components joined in turn onto any path: its directory, the
      first, a slash, the second. */
  lemma JoinTwiceDir(a: string, id: string, name: string)
    requires PlainSegment(id) && PlainSegment(name)
    ensures Join(Join(a, id), name) == Dir(a) + (id + ("/" + name))
  {
    JoinPlain(a, id);
    JoinPlain(Join(a, id), name);
    assert Dir(a) + id + "/" + name == Dir(a) + (id + ("/" + name));
  }

  /** Two plain components joined in turn onto a path that does not end in a
      slash: the path, a slash, the first, a slash, the second. */
  lemma JoinTwice(u: string, id: string, name: string)
    requires u != "" && !EndsWithSlash(u) && PlainSegment(id) && PlainSegment(name)
    ensures Join(Join(u, id), name) == u + ("/" + id + "/" + name)
  {
    JoinPlain(u, id);
    var v := Join(u, id);
    assert v == u + "/" + id;
    JoinPlain(v, name);
    assert Join(v, name) == v + "/" + name;
    assert u + "/" + id + "/" + name == u + ("/" + id + "/" + name);
  }
}
