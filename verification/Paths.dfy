/**
 * Repository paths.  The source keeps a path as one string and takes it apart with `split('/')`;
 * the model keeps the list of components.  The lemmas here say that, for canonical paths, the two
 * views are interchangeable: nothing is lost by working on components.
 */
module Paths {

  type Name = string
  type Path = seq<Name>

  /** What path validation leaves: at least one component, none empty, none with a slash. */
  ghost predicate Canonical(p: Path) {
    p != [] && forall i | 0 <= i < |p| :: p[i] != "" && '/' !in p[i]
  }

  /** `parts.join('/')` */
  function Join(p: Path): string {
    if p == [] then "" else if |p| == 1 then p[0] else p[0] + "/" + Join(p[1..])
  }

  /** `s.split('/')`, with `part` the component read so far. */
  function SplitFrom(part: string, s: string): Path
    decreases |s|
  {
    if s == "" then [part]
    else if s[0] == '/' then [part] + SplitFrom("", s[1..])
    else SplitFrom(part + [s[0]], s[1..])
  }

  function Split(s: string): Path {
    SplitFrom("", s)
  }

  /** Reading a slash-free component moves it into `part`. */
  lemma {:induction false} SplitFromName(part: string, n: Name, rest: string)
    requires '/' !in n
    ensures SplitFrom(part, n + rest) == SplitFrom(part + n, rest)
    decreases |n|
  {
    if n == "" {
      assert n + rest == rest && part + n == part;
    } else {
      assert (n + rest)[1..] == n[1..] + rest;
      assert part + [n[0]] + n[1..] == part + n;
      SplitFromName(part + [n[0]], n[1..], rest);
    }
  }

  /** Splitting undoes joining, so distinct canonical paths are distinct strings. */
  lemma {:induction false} SplitJoin(p: Path)
    requires Canonical(p)
    ensures Split(Join(p)) == p
    decreases |p|
  {
    if |p| == 1 {
      assert p[0] + "" == p[0] == "" + p[0];
      SplitFromName("", p[0], "");
      assert p == [p[0]];
    } else {
      var rest := "/" + Join(p[1..]);
      assert Join(p) == p[0] + rest;
      SplitFromName("", p[0], rest);
      assert "" + p[0] == p[0];
      assert rest[1..] == Join(p[1..]);
      SplitJoin(p[1..]);
      assert p == [p[0]] + p[1..];
    }
  }

  /** The key the flattener builds for a child: the prefix, a slash and the name. */
  lemma {:induction false} JoinSnoc(p: Path, n: Name)
    ensures Join(p + [n]) == if p == [] then n else Join(p) + "/" + n
    decreases |p|
  {
    if |p| == 1 {
      assert (p + [n])[1..] == [n];
      assert p[0] + "/" + n == p[0] + ("/" + n);
    } else if |p| > 1 {
      assert (p + [n])[1..] == p[1..] + [n];
      JoinSnoc(p[1..], n);
      assert Join(p + [n]) == p[0] + "/" + (Join(p[1..]) + "/" + n);
      assert Join(p) + "/" + n == p[0] + "/" + (Join(p[1..]) + "/" + n);
    }
  }

  /** The test `if (remaining)` in the source is the test for more than one component. */
  lemma RemainingIsEmpty(p: Path)
    requires Canonical(p)
    ensures Join(p[1..]) == "" <==> |p| == 1
  {
    if |p| > 1 {
      assert p[1..][0] == p[1];
    }
  }

  /** Two paths are comparable when one lies on the way to the other. */
  predicate Comparable(p: Path, q: Path) {
    p <= q || q <= p
  }
}
