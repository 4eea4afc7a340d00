/** `os.path.join` with two components on a POSIX system. */
module PosixPath {

  predicate IsAbsolute(p: string) {
    |p| > 0 && p[0] == '/'
  }

  /** An absolute second component replaces the first; otherwise one `/` is
      inserted unless the first is empty or already ends in `/`. */
  function Join(dir: string, name: string): (p: string)
    ensures IsAbsolute(name) ==> p == name
    ensures |p| >= |name| && p[|p| - |name|..] == name
    ensures !IsAbsolute(name) ==> p[..|p| - |name|] in {dir, dir + "/"}
    ensures !IsAbsolute(name) ==> |p| == |name| || p[|p| - |name| - 1] == '/'
    ensures !IsAbsolute(name) && (|dir| == 0 || dir[|dir| - 1] == '/') ==> p == dir + name
    ensures !IsAbsolute(name) && |dir| > 0 && dir[|dir| - 1] != '/' ==> p == dir + "/" + name
  {
    if IsAbsolute(name) then name
    else if |dir| == 0 || dir[|dir| - 1] == '/' then dir + name
    else dir + "/" + name
  }

  /** The separator rule: a relative name is appended directly after an empty
      directory or one that already ends in `/`, and after a `/` otherwise. */
  lemma JoinSeparator(dir: string, name: string)
    requires !IsAbsolute(name)
    ensures |dir| == 0 || dir[|dir| - 1] == '/' ==> Join(dir, name) == dir + name
    ensures |dir| > 0 && dir[|dir| - 1] != '/' ==> Join(dir, name) == dir + "/" + name
  {
  }
}
