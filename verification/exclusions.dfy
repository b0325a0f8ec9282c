/** The names a walk leaves out (core/exclusion.go, and the identical copy in
    core/cmd_create.go). */
module Exclusions {
  /** exclusions.Has: a linear scan, true on the first equal name. */
  method Has(e: seq<string>, name: string) returns (r: bool)
    ensures r <==> name in e
    ensures r ==> exists i :: 0 <= i < |e| && e[i] == name && forall j :: 0 <= j < i ==> e[j] != name
  {
    var i := 0;
    while i < |e|
      invariant 0 <= i <= |e|
      invariant forall j :: 0 <= j < i ==> e[j] != name
    {
      if e[i] == name {
        return true;
      }
      i := i + 1;
    }
    return false;
  }

  /** The names Create leaves out of every snapshot. */
  function CreateExcludes(): (r: seq<string>)
    ensures ".git" in r && ".DS_Store" in r && |r| == 2
  {
    [".git", ".DS_Store"]
  }
}
