/** The search-path list of `SE_Env`, where model and scenario files are
    looked up. */
module Env {

  /** `AddPath`: appends the path and returns 0, or returns -1 and leaves
      the list alone when the path is already in it. */
  function AddPath(paths: seq<string>, path: string): (r: (int, seq<string>))
    ensures r.0 == 0 || r.0 == -1
    ensures r.0 == 0 <==> path !in paths
    ensures paths <= r.1 && path in r.1 && |r.1| <= |paths| + 1
    ensures r.0 == -1 ==> r.1 == paths
  {
    if path in paths then (-1, paths) else (0, paths + [path])
  }

  /** No path appears twice. */
  ghost predicate Distinct(paths: seq<string>) {
    forall i, j :: 0 <= i < j < |paths| ==> paths[i] != paths[j]
  }

  /** Adding paths keeps the list free of repeats, and the new path is in
      it afterwards either way. */
  lemma AddPathKeepsDistinct(paths: seq<string>, path: string)
    requires Distinct(paths)
    ensures Distinct(AddPath(paths, path).1)
    ensures path in AddPath(paths, path).1
  {
  }

  /** Adding the same path twice changes the list once: the second call
      reports it as present. */
  lemma AddPathTwice(paths: seq<string>, path: string)
    ensures var once := AddPath(paths, path).1;
            AddPath(once, path) == (-1, once)
  {
  }
}
