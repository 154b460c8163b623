/** Paths as visitFile sees them, and the sibling it moves a file to. */
module Paths {
  import opened Prefix

  /** A path below the walk's root: the directory segments and the last segment. */
  datatype Path = Path(dir: seq<string>, name: string)

  /** java.nio.file.Path.resolveSibling: the same parent with another last segment. */
  function ResolveSibling(p: Path, name: string): Path
  {
    Path(p.dir, name)
  }

  /** Where visitFile moves a file last modified `millis` milliseconds after the epoch. */
  function Target(file: Path, millis: nat): Path
  {
    ResolveSibling(file, UtcPrefix(millis) + file.name)
  }

  /** The target stays in the file's directory and its last segment is the prefix
      followed by the original last segment; before year 10000 the prefix is the
      first 25 characters, so dropping them gives the original name back. */
  lemma TargetRecoversName(file: Path, millis: nat)
    requires millis < FirstMilliOfYear10000
    ensures var t := Target(file, millis);
            && t.dir == file.dir
            && |t.name| == 25 + |file.name|
            && t.name[..25] == UtcPrefix(millis)
            && t.name[25..] == file.name
  {
    UtcPrefixLength(millis);
    var t := Target(file, millis);
    assert t.name == UtcPrefix(millis) + file.name;
  }

  /** Different files never share a target, whatever their timestamps: the target
      determines both the original path and the prefix. */
  lemma TargetInjective(p: Path, q: Path, a: nat, b: nat)
    requires Target(p, a) == Target(q, b)
    ensures p == q && UtcPrefix(a) == UtcPrefix(b)
  {
    PrefixUnambiguous(a, b, p.name, q.name);
  }

  /** For one timestamp, two files in one directory get the same target exactly
      when they are the same file. */
  lemma SameStampTargetsDistinct(p: Path, q: Path, millis: nat)
    requires p.dir == q.dir
    ensures Target(p, millis) == Target(q, millis) <==> p.name == q.name
  {
    if Target(p, millis) == Target(q, millis) { TargetInjective(p, q, millis, millis); }
  }

  /** The target path is never the file's own path. */
  lemma TargetDiffers(file: Path, millis: nat)
    ensures Target(file, millis) != file
  {
    UtcPrefixLength(millis);
    assert |Target(file, millis).name| == |UtcPrefix(millis)| + |file.name|;
  }

  /** Nothing looks for an earlier prefix: the target of a target carries the new
      prefix in front of the old one, and is a different path again. */
  lemma TargetStacks(file: Path, a: nat, b: nat)
    ensures Target(Target(file, a), b) == Path(file.dir, UtcPrefix(b) + (UtcPrefix(a) + file.name))
    ensures Target(Target(file, a), b) != Target(file, a)
  {
    TargetDiffers(Target(file, a), b);
  }

  /** report.txt last modified at 2021-03-15T14:30:00Z (the example in README). */
  lemma {:induction false} TargetExample(dir: seq<string>, millis: nat)
    requires millis == 1615818600000
    ensures Target(Path(dir, "report.txt"), millis) == Path(dir, "2021-03-15_14-30-00_UTC__report.txt")
  {
    UtcPrefixExample(millis);
    ExampleName(UtcPrefix(millis), dir);
  }

  lemma {:induction false} ExampleName(prefix: string, dir: seq<string>)
    requires prefix == "2021-03-15_14-30-00_UTC__"
    ensures Path(dir, prefix + "report.txt") == Path(dir, "2021-03-15_14-30-00_UTC__report.txt")
  {
  }
}
