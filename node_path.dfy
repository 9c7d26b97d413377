/**
 * The POSIX flavour of Node's `path.extname` and `path.basename(p, suffix)`,
 * which the upload route uses to split the client's file name. Both work on
 * the last component of the path, after trailing slashes are ignored.
 */
module NodePath {
  import opened JsText

  /** Index of the last occurrence of `c` in `s`. */
  function LastIndexOf(s: string, c: char): (r: Option<nat>)
    ensures r.None? <==> c !in s
    ensures r.Some? ==> r.value < |s| && s[r.value] == c && c !in s[r.value + 1..]
  {
    if s == [] then None
    else if s[|s| - 1] == c then Some(|s| - 1)
    else
      assert s == s[..|s| - 1] + [s[|s| - 1]];
      LastIndexOf(s[..|s| - 1], c)
  }

  /** An occurrence of `c` with none after it is the last one. */
  lemma LastIndexOfAt(s: string, c: char, k: nat)
    requires k < |s| && s[k] == c && c !in s[k + 1..]
    ensures LastIndexOf(s, c) == Some(k)
  {
  }

  /** The path with every trailing `/` removed. */
  function TrimTrailingSlashes(p: string): (r: string)
    ensures |r| <= |p| && r == p[..|r|]
    ensures r == [] || r[|r| - 1] != '/'
    ensures forall i :: |r| <= i < |p| ==> p[i] == '/'
  {
    if p == [] || p[|p| - 1] != '/' then p else TrimTrailingSlashes(p[..|p| - 1])
  }

  /** Where the last component starts: just after the last `/` before it, or 0. */
  function ComponentStart(p: string): (k: nat)
    ensures k <= |TrimTrailingSlashes(p)|
    ensures '/' !in TrimTrailingSlashes(p)[k..]
    ensures k == 0 || TrimTrailingSlashes(p)[k - 1] == '/'
  {
    var t := TrimTrailingSlashes(p);
    match LastIndexOf(t, '/')
    case None => 0
    case Some(i) => i + 1
  }

  /** The last component of the path; empty when the path is empty or all slashes. */
  function LastComponent(p: string): (c: string)
    ensures '/' !in c
  {
    TrimTrailingSlashes(p)[ComponentStart(p)..]
  }

  /**
   * `path.extname(p)`: from the last `.` of the last component to its end,
   * or empty when the component has no `.` after its first character or is
   * exactly `..`.
   */
  function Extname(p: string): (e: string)
    ensures var c := LastComponent(p);
      && (e == [] <==> (c == [] || '.' !in c[1..] || c == ".."))
      && (e != [] ==> e[0] == '.' && '.' !in e[1..] && |e| < |c| && IsSuffix(e, c))
  {
    var c := LastComponent(p);
    match LastIndexOf(c, '.')
    case None => []
    case Some(k) =>
      if k == 0 || c == ".." then []
      else
        assert c[1..] == c[1..k] + c[k..];
        c[k..]
  }

  /**
   * `path.basename(p, suffix)`. A non-empty suffix no longer than `p` is cut
   * off the end of the last component when the component ends with it and is
   * longer than it. Two degenerate inputs behave as Node's implementation
   * does: `suffix == p` gives the empty string, and a component that is a
   * proper tail of the suffix (or is empty) comes back with the trailing
   * slashes of `p` still attached.
   */
  function Basename(p: string, suffix: string): (b: string)
    ensures var c := LastComponent(p);
      |suffix| < |c| ==>
        if IsSuffix(suffix, c) then b + suffix == c else b == c
  {
    var c := LastComponent(p);
    if suffix != [] && |suffix| <= |p| then
      if suffix == p then []
      else if |c| < |suffix| && IsSuffix(c, suffix) then p[ComponentStart(p)..]
      else if |c| > |suffix| && IsSuffix(suffix, c) then c[..|c| - |suffix|]
      else c
    else c
  }
}
