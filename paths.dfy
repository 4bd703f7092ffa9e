/** Paths and shell commands as the crawlers format them: `'%s/%s' % (dir, name)` and
    `'wget --output-document=%s %s' % (outdoc, target)`. */
module Paths {
  import opened Wrappers
  import opened Text

  const WgetPrefix := "wget --output-document="

  /** `'%s/%s' % (dir, name)`. */
  function Join(dir: string, name: string): string
  {
    dir + "/" + name
  }

  /** The command `download` hands to `os.system`. */
  function Wget(outdoc: string, target: string): string
  {
    WgetPrefix + outdoc + " " + target
  }

  /** How a shell reads a wget command back: the output document runs to the first space,
      the target is the rest. */
  function ParseWget(cmd: string): Option<(string, string)>
  {
    if !StartsWith(cmd, WgetPrefix) then None
    else
      var rest := cmd[|WgetPrefix|..];
      var outdoc := BeforeFirst(rest, ' ');
      if |outdoc| == |rest| then None else Some((outdoc, rest[|outdoc| + 1..]))
  }

  /** A command names its output document and its target unambiguously when the document
      path has no space. */
  lemma WgetRoundTrip(outdoc: string, target: string)
    requires ' ' !in outdoc
    ensures ParseWget(Wget(outdoc, target)) == Some((outdoc, target))
  {
    var cmd := Wget(outdoc, target);
    assert cmd[..|WgetPrefix|] == WgetPrefix;
    assert cmd[|WgetPrefix|..] == outdoc + [' '] + target;
    BeforeFirstJoin(outdoc, ' ', target);
  }

  /** A joined path splits back, at its last `/`, into the directory and the file name,
      provided the name has no `/`. */
  lemma JoinSplits(dir: string, name: string)
    requires '/' !in name
    ensures AfterLast(Join(dir, name), '/') == name
    ensures Join(dir, name) == Join(dir, AfterLast(Join(dir, name), '/'))
  {
    AfterLastJoin(dir, '/', name);
  }

  /** Joining to one directory is injective in the file name. */
  lemma JoinInjective(dir: string, a: string, b: string)
    ensures Join(dir, a) == Join(dir, b) <==> a == b
  {
    if Join(dir, a) == Join(dir, b) {
      assert a == Join(dir, a)[|dir| + 1..];
      assert b == Join(dir, b)[|dir| + 1..];
    }
  }
}
