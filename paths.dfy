/**
 * The few path operations the watcher relies on, over slash-separated POSIX
 * paths. Directory entries and watch-event file names are bare names without
 * a separator.
 */
module Paths {
  import opened Wrappers

  /** Path of an entry `file` inside directory `dir`. */
  function Join(dir: string, file: string): string {
    dir + "/" + file
  }

  /**
   * The recognised artifact extension. For a name without a separator,
   * Node's `path.extname` returns ".json" exactly when the name ends in
   * ".json" and that last dot is not the name's first character.
   */
  predicate IsJson(name: string) {
    |name| > 5 && name[|name| - 5..] == ".json"
  }

  /** The position of the last dot in `s`, if any. */
  function LastDot(s: string): (r: Option<nat>)
    ensures r.Some? ==> r.value < |s| && s[r.value] == '.' && forall j :: r.value < j < |s| ==> s[j] != '.'
    ensures r.None? ==> forall j :: 0 <= j < |s| ==> s[j] != '.'
  {
    if s == [] then None
    else if s[|s| - 1] == '.' then Some(|s| - 1)
    else LastDot(s[..|s| - 1])
  }

  /**
   * Node's `path.extname` on a name without a separator: from the last dot
   * to the end, or empty when there is no dot, the only dot-led part is the
   * name's start, or the name is "..".
   */
  function Extname(name: string): (e: string)
    ensures e == [] || (e[0] == '.' && '.' !in e[1..] && |e| < |name| && name[|name| - |e|..] == e)
  {
    match LastDot(name)
    case None => ""
    case Some(i) => if i == 0 || name == ".." then "" else name[i..]
  }

  /** The artifact test is Node's `path.extname(name) === ".json"`. */
  lemma IsJsonIsExtname(name: string)
    ensures IsJson(name) <==> Extname(name) == ".json"
  {
    if IsJson(name) {
      var k := |name| - 5;
      assert name[k] == '.';
      assert forall j :: k < j < |name| ==> name[j] == name[k..][j - k];
      var d := LastDot(name);
      assert d.Some? && d.value == k;
    }
  }

  /** `p` without its trailing separators. */
  function TrimSlashes(p: string): (q: string)
    ensures q <= p
    ensures q == [] || q[|q| - 1] != '/'
    ensures forall i :: |q| <= i < |p| ==> p[i] == '/'
  {
    if p != [] && p[|p| - 1] == '/' then TrimSlashes(p[..|p| - 1]) else p
  }

  /** The characters of `p` after its last separator. */
  function LastSegment(p: string): (s: string)
    ensures '/' !in s
    ensures |s| <= |p| && p[|p| - |s|..] == s
    ensures |s| == |p| || p[|p| - |s| - 1] == '/'
  {
    if p == [] || p[|p| - 1] == '/' then []
    else LastSegment(p[..|p| - 1]) + [p[|p| - 1]]
  }

  /** Node's `path.basename`: the last segment, trailing separators ignored. */
  function Basename(p: string): (s: string)
    ensures '/' !in s
    ensures var q := TrimSlashes(p); |s| <= |q| && q[|q| - |s|..] == s && (|s| == |q| || q[|q| - |s| - 1] == '/')
  {
    LastSegment(TrimSlashes(p))
  }
}
