/** POSIX path joining, as `os.path.join` does it on the platforms the
    scripts run on. */
module Paths {
  import opened Text

  /** `os.path.join(a, b)`: an absolute `b` replaces `a`; otherwise `b` is
      appended, with one `/` inserted unless `a` is empty or already ends
      in one. */
  function Join(a: string, b: string): string {
    if StartsWith(b, "/") then b
    else if a == [] || EndsWith(a, "/") then a + b
    else a + "/" + b
  }

  /** The joined path ends with the last component. An absolute component
      is the whole result; a relative one extends `a`, with one `/`
      inserted unless `a` is empty or already ends in `/`. */
  lemma JoinSpec(a: string, b: string)
    ensures EndsWith(Join(a, b), b)
    ensures StartsWith(b, "/") ==> Join(a, b) == b
    ensures !StartsWith(b, "/") ==> StartsWith(Join(a, b), a)
    ensures !StartsWith(b, "/") && (a == [] || EndsWith(a, "/")) ==> Join(a, b) == a + b
    ensures !StartsWith(b, "/") && a != [] && !EndsWith(a, "/") ==> Join(a, b) == a + "/" + b
  {
    if !StartsWith(b, "/") {
      if a == [] || EndsWith(a, "/") {
        assert (a + b)[..|a|] == a;
        assert (a + b)[|a|..] == b;
      } else {
        assert (a + "/" + b)[..|a|] == a;
        assert (a + "/" + b)[|a| + 1..] == b;
      }
    }
  }
}
