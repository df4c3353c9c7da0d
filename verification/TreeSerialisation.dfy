/**
 * The text that `treeHash` feeds to SHA-256.  It is canonical: it depends on the entries only, not on
 * the order in which they were inserted.  With colon-free names it is uniquely decodable exactly when the
 * ids of sub-repositories all have one width; the hashes of files and directories always do.
 */
module TreeSerialisation {

  datatype Kind = BlobKind | TreeKind | SubRepoKind
  datatype Row = Row(kind: Kind, hash: string)
  type Rows = map<string, Row>

  /** An object's own properties in insertion order; keys are distinct. */
  datatype Property = Property(key: string, row: Row)

  const WIDTH: nat := 64

  function KindText(k: Kind): string {
    match k case BlobKind => "blob" case TreeKind => "tree" case SubRepoKind => "subrepo"
  }

  function Chunk(key: string, row: Row): string {
    key + ":" + KindText(row.kind) + ":" + row.hash
  }

  // ---------------------------------------------------------------- the order of `sort()`

  predicate Before(a: string, b: string) {
    a == "" || (b != "" && (a[0] < b[0] || (a[0] == b[0] && Before(a[1..], b[1..]))))
  }

  lemma {:induction false} BeforeTotal(a: string, b: string)
    ensures Before(a, b) || Before(b, a)
    ensures Before(a, b) && Before(b, a) ==> a == b
  {
    if a != "" && b != "" && a[0] == b[0] {
      BeforeTotal(a[1..], b[1..]);
      assert a == [a[0]] + a[1..] && b == [b[0]] + b[1..];
    }
  }

  lemma {:induction false} BeforeTransitive(a: string, b: string, c: string)
    requires Before(a, b) && Before(b, c)
    ensures Before(a, c)
  {
    if a != "" && a[0] == b[0] && b[0] == c[0] {
      BeforeTransitive(a[1..], b[1..], c[1..]);
    }
  }

  function Insert(k: string, ks: seq<string>): seq<string> {
    if ks == [] || Before(k, ks[0]) then [k] + ks else [ks[0]] + Insert(k, ks[1..])
  }

  function Sort(ks: seq<string>): seq<string> {
    if ks == [] then [] else Insert(ks[0], Sort(ks[1..]))
  }

  ghost predicate Sorted(ks: seq<string>) {
    forall i, j | 0 <= i < j < |ks| :: ks[i] != ks[j] && Before(ks[i], ks[j])
  }

  lemma {:induction false} InsertSorted(k: string, ks: seq<string>)
    requires Sorted(ks) && k !in ks
    ensures Sorted(Insert(k, ks))
    ensures forall x :: x in Insert(k, ks) <==> x == k || x in ks
  {
    if ks == [] {
    } else if Before(k, ks[0]) {
      forall j | 0 <= j < |ks| ensures Before(k, ks[j]) {
        if j > 0 { BeforeTransitive(k, ks[0], ks[j]); }
      }
    } else {
      BeforeTotal(k, ks[0]);
      InsertSorted(k, ks[1..]);
      assert ks == [ks[0]] + ks[1..];
      var rest := Insert(k, ks[1..]);
      forall j | 0 <= j < |rest| ensures ks[0] != rest[j] && Before(ks[0], rest[j]) {
        assert rest[j] in rest;
      }
    }
  }

  lemma {:induction false} SortSorts(ks: seq<string>)
    requires forall i, j | 0 <= i < j < |ks| :: ks[i] != ks[j]
    ensures Sorted(Sort(ks))
    ensures forall x :: x in Sort(ks) <==> x in ks
  {
    if ks != [] {
      SortSorts(ks[1..]);
      assert ks == [ks[0]] + ks[1..];
      InsertSorted(ks[0], Sort(ks[1..]));
    }
  }

  // ---------------------------------------------------------------- the canonical text of a map

  ghost predicate IsLeast(k: string, keys: set<string>) {
    k in keys && forall x | x in keys :: Before(k, x)
  }

  lemma {:induction false} HasLeast(keys: set<string>) returns (k: string)
    requires keys != {}
    ensures IsLeast(k, keys)
    decreases keys
  {
    k :| k in keys;
    BeforeTotal(k, k);
    if keys != {k} {
      var l := HasLeast(keys - {k});
      BeforeTotal(k, l);
      forall x | x in keys ensures Before(if Before(k, l) then k else l, x) {
        if Before(k, l) && x != k { BeforeTransitive(k, l, x); }
      }
      if !Before(k, l) { k := l; }
    }
  }

  /** The chunks of the entries, least name first. */
  ghost function Serialise(m: Rows): string
    decreases |m|
  {
    if m == map[] then ""
    else
      assert exists k :: IsLeast(k, m.Keys) by { var k := HasLeast(m.Keys); }
      var k :| IsLeast(k, m.Keys);
      assert k in m && |m.Keys - {k}| < |m.Keys|;
      assert (m - {k}).Keys == m.Keys - {k};
      Chunk(k, m[k]) + Serialise(m - {k})
  }

  function Keys(ps: seq<Property>): seq<string> {
    seq(|ps|, i requires 0 <= i < |ps| => ps[i].key)
  }

  ghost predicate Distinct(ps: seq<Property>) {
    forall i, j | 0 <= i < j < |ps| :: ps[i].key != ps[j].key
  }

  function RowsOf(ps: seq<Property>): Rows {
    if ps == [] then map[] else RowsOf(ps[..|ps| - 1])[ps[|ps| - 1].key := ps[|ps| - 1].row]
  }

  lemma {:induction false} RowsOfKeys(ps: seq<Property>)
    ensures forall k :: k in RowsOf(ps) <==> k in Keys(ps)
  {
    if ps != [] {
      RowsOfKeys(ps[..|ps| - 1]);
      assert Keys(ps) == Keys(ps[..|ps| - 1]) + [ps[|ps| - 1].key];
    }
  }

  function Chunks(ks: seq<string>, m: Rows): string
    requires forall k | k in ks :: k in m
  {
    if ks == [] then "" else Chunk(ks[0], m[ks[0]]) + Chunks(ks[1..], m)
  }

  /** Sorted chunks are the canonical text; `m` is what is left of all rows. */
  lemma {:induction false} SortedChunks(ks: seq<string>, m: Rows, all: Rows)
    requires Sorted(ks) && forall k :: k in m <==> k in ks
    requires forall k | k in m :: k in all && m[k] == all[k]
    ensures Chunks(ks, all) == Serialise(m)
    decreases |ks|
  {
    if ks == [] {
      assert m == map[];
    } else {
      assert ks == [ks[0]] + ks[1..];
      LeastFirst(m, ks[0], ks);
      SortedChunks(ks[1..], m - {ks[0]}, all);
    }
  }

  lemma OneMoreChunk(text: string, ks: seq<string>, m: Rows)
    requires ks != [] && forall k | k in ks :: k in m
    ensures text + Chunks(ks, m) == text + Chunk(ks[0], m[ks[0]]) + Chunks(ks[1..], m)
  {
  }

  lemma SortedText(ps: seq<Property>)
    requires Distinct(ps)
    ensures forall k | k in Sort(Keys(ps)) :: k in RowsOf(ps)
    ensures Chunks(Sort(Keys(ps)), RowsOf(ps)) == Serialise(RowsOf(ps))
  {
    SortSorts(Keys(ps));
    RowsOfKeys(ps);
    SortedChunks(Sort(Keys(ps)), RowsOf(ps), RowsOf(ps));
  }

  /** The loop of `treeHash`: sort the names, then feed one chunk per name. */
  method TreeHashInput(entries: seq<Property>) returns (text: string)
    requires Distinct(entries)
    ensures text == Serialise(RowsOf(entries))
  {
    SortedText(entries);
    var sortedKeys, rows := Sort(Keys(entries)), RowsOf(entries);
    text := FeedChunks(sortedKeys, rows);
  }

  method FeedChunks(keys: seq<string>, rows: Rows) returns (text: string)
    requires forall k | k in keys :: k in rows
    ensures text == Chunks(keys, rows)
  {
    text := "";
    for i := 0 to |keys|
      invariant text + Chunks(keys[i..], rows) == Chunks(keys, rows)
    {
      var key := keys[i];
      assert keys[i..] == [key] + keys[i + 1..];
      OneMoreChunk(text, keys[i..], rows);
      text := text + Chunk(key, rows[key]);
    }
    assert text + "" == text;
  }

  lemma LeastFirst(m: Rows, k: string, ks: seq<string>)
    requires ks != [] && k == ks[0] && Sorted(ks) && forall x :: x in m <==> x in ks
    ensures Serialise(m) == Chunk(k, m[k]) + Serialise(m - {k})
  {
    assert k in m;
    forall x | IsLeast(x, m.Keys) ensures x == k {
      var i :| 0 <= i < |ks| && ks[i] == x;
      BeforeTotal(x, k);
    }
    var l := HasLeast(m.Keys);
  }

  /** Two objects with the same entries give the same text, whatever the insertion order. */
  method SameEntriesSameText(a: seq<Property>, b: seq<Property>) returns (ta: string, tb: string)
    requires Distinct(a) && Distinct(b) && RowsOf(a) == RowsOf(b)
    ensures ta == tb
  {
    ta := TreeHashInput(a);
    tb := TreeHashInput(b);
  }

  // ---------------------------------------------------------------- unique decoding

  /** Names without a colon, digests of their width, and sub-repository ids of the given widths. */
  ghost predicate InClass(m: Rows, widths: set<nat>) {
    forall k | k in m :: ':' !in k && HashFits(m[k], widths)
  }

  predicate HashFits(r: Row, widths: set<nat>) {
    if r.kind.SubRepoKind? then |r.hash| in widths else |r.hash| == WIDTH
  }

  predicate OneWidth(widths: set<nat>) {
    forall a, b | a in widths && b in widths :: a == b
  }

  lemma UpToColon(a: string, x: string, b: string, y: string)
    requires ':' !in a && ':' !in b
    requires a + ":" + x == b + ":" + y
    ensures a == b && x == y
  {
    var s, t := a + ":" + x, b + ":" + y;
    assert s[|a|] == ':' && t[|b|] == ':';
    assert forall i | 0 <= i < |a| :: s[i] == a[i];
    assert forall i | 0 <= i < |b| :: t[i] == b[i];
    assert |a| == |b|;
    assert a == s[..|a|] && b == t[..|b|];
    assert x == s[|a| + 1..] && y == t[|b| + 1..];
  }

  /** The text of one entry: its name, its kind and its hash, between colons. */
  lemma ChunkText(k: string, h: string)
    ensures Chunk(k, Row(BlobKind, h)) == k + ":blob:" + h
    ensures Chunk(k, Row(TreeKind, h)) == k + ":tree:" + h
    ensures Chunk(k, Row(SubRepoKind, h)) == k + ":subrepo:" + h
  {
    assert ":" + "blob" + ":" == ":blob:" && ":" + "tree" + ":" == ":tree:" && ":" + "subrepo" + ":" == ":subrepo:";
    ChunkShape(k, BlobKind, h);
    ChunkShape(k, TreeKind, h);
    ChunkShape(k, SubRepoKind, h);
    JoinedText(k, ":blob:", h);
    JoinedText(k, ":tree:", h);
    JoinedText(k, ":subrepo:", h);
  }

  /** The first chunk of a text can be read off in only one way. */
  lemma ChunkDecodes(k: string, r: Row, x: string, l: string, q: Row, y: string)
    requires ':' !in k && ':' !in l && (r.kind == q.kind ==> |r.hash| == |q.hash|)
    requires Chunk(k, r) + x == Chunk(l, q) + y
    ensures k == l && r == q && x == y
  {
    var kr, lq := KindText(r.kind), KindText(q.kind);
    assert Chunk(k, r) + x == k + ":" + (kr + ":" + (r.hash + x));
    assert Chunk(l, q) + y == l + ":" + (lq + ":" + (q.hash + y));
    UpToColon(k, kr + ":" + (r.hash + x), l, lq + ":" + (q.hash + y));
    UpToColon(kr, r.hash + x, lq, q.hash + y);
    assert r.kind == q.kind by { assert "blob" != "tree"; assert |"subrepo"| == 7; assert kr[0] == lq[0]; }
    var width := |r.hash|;
    assert (r.hash + x)[..width] == r.hash && (q.hash + y)[..width] == q.hash;
    assert (r.hash + x)[width..] == x && (q.hash + y)[width..] == y;
  }

  lemma FirstChunk(m: Rows) returns (k: string)
    requires m != map[]
    ensures k in m && |m - {k}| < |m|
    ensures Serialise(m) == Chunk(k, m[k]) + Serialise(m - {k})
  {
    k := HasLeast(m.Keys);
    forall x | IsLeast(x, m.Keys) ensures x == k { BeforeTotal(x, k); }
    assert (m - {k}).Keys == m.Keys - {k};
  }

  /** With one width of sub-repository ids, different directories feed different texts to the hash. */
  lemma {:induction false} SerialiseInjective(m: Rows, w: Rows, widths: set<nat>)
    requires OneWidth(widths) && InClass(m, widths) && InClass(w, widths) && Serialise(m) == Serialise(w)
    ensures m == w
    decreases |m|
  {
    if m != map[] && w != map[] {
      var k := FirstChunk(m);
      var l := FirstChunk(w);
      var m', w' := m - {k}, w - {l};
      ChunkDecodes(k, m[k], Serialise(m'), l, w[l], Serialise(w'));
      SerialiseInjective(m', w', widths);
      PutBack(m, k);
      PutBack(w, k);
    } else if m != map[] {
      var k := FirstChunk(m);
    } else if w != map[] {
      var l := FirstChunk(w);
    }
  }

  lemma PutBack(m: Rows, k: string)
    requires k in m
    ensures m == (m - {k})[k := m[k]]
  {
  }

  ghost predicate UniquelyDecodable(widths: set<nat>) {
    forall m, w | InClass(m, widths) && InClass(w, widths) && Serialise(m) == Serialise(w) :: m == w
  }

  /** The text determines the directory exactly when all sub-repository ids have the same width. */
  lemma UniquelyDecodableExactlyWhen(widths: set<nat>)
    ensures UniquelyDecodable(widths) <==> OneWidth(widths)
  {
    if OneWidth(widths) {
      forall m, w | InClass(m, widths) && InClass(w, widths) && Serialise(m) == Serialise(w) ensures m == w {
        SerialiseInjective(m, w, widths);
      }
    } else {
      var a, b :| a in widths && b in widths && a < b;
      var m, w := CollisionOfWidths(a, b, widths);
    }
  }

  function Repeat(c: char, n: nat): string {
    seq(n, i => c)
  }

  /** Two widths are enough for two directories with the same text. */
  lemma CollisionOfWidths(a: nat, b: nat, widths: set<nat>) returns (m: Rows, w: Rows)
    requires a < b && a in widths && b in widths
    ensures InClass(m, widths) && InClass(w, widths) && m != w && Serialise(m) == Serialise(w)
  {
    var id, moved, digest := Repeat('0', a), Repeat('b', b - a), Repeat('0', WIDTH);
    m := map["a" := Row(SubRepoKind, id), moved + "b" := Row(BlobKind, digest)];
    w := map["a" := Row(SubRepoKind, id + moved), "b" := Row(BlobKind, digest)];
    assert (moved + "b")[0] == 'b';
    assert "a"[0] == 'a' && "b"[0] == 'b';
    SubRepoTextsCollide("a", id, moved, "b", digest);
  }

  /**
   * How decoding fails: moving text from the front of the next name to the end of the id gives a
   * different directory for which the same text is hashed.
   */
  lemma SubRepoTextsCollide(a: string, id: string, moved: string, b: string, h: string)
    requires moved != "" && a != b && a != moved + b && Before(a, b) && Before(a, moved + b)
    ensures var m := map[a := Row(SubRepoKind, id), moved + b := Row(BlobKind, h)];
            var w := map[a := Row(SubRepoKind, id + moved), b := Row(BlobKind, h)];
            m != w && Serialise(m) == Serialise(w)
  {
    TwoRows(a, Row(SubRepoKind, id), moved + b, Row(BlobKind, h));
    TwoRows(a, Row(SubRepoKind, id + moved), b, Row(BlobKind, h));
    DifferentIds(id, moved);
    TextMoves(a + ":" + KindText(SubRepoKind) + ":", id, moved, b, ":" + KindText(BlobKind) + ":" + h);
    ChunkShape(a, SubRepoKind, id);
    ChunkShape(a, SubRepoKind, id + moved);
    ChunkShape(moved + b, BlobKind, h);
    ChunkShape(b, BlobKind, h);
  }

  /**
   * Names with a colon, which path validation accepts, make texts ambiguous for ordinary files: a directory
   * of two files and one of a single file, whose name spells out the first of them, feed the same text.
   */
  lemma ColonNamesCollide(a: string, h: string, b: string, g: string)
    requires a != b && Before(a, b)
    ensures var m := map[a := Row(BlobKind, h), b := Row(BlobKind, g)];
            var w := map[Chunk(a, Row(BlobKind, h)) + b := Row(BlobKind, g)];
            m != w && Serialise(m) == Serialise(w)
  {
    var k := Chunk(a, Row(BlobKind, h)) + b;
    var m, w := map[a := Row(BlobKind, h), b := Row(BlobKind, g)], map[k := Row(BlobKind, g)];
    TwoRows(a, Row(BlobKind, h), b, Row(BlobKind, g));
    LeastFirst(w, k, [k]);
    assert w - {k} == map[];
    ChunkShape(k, BlobKind, g);
    ChunkShape(b, BlobKind, g);
    JoinedText(Chunk(a, Row(BlobKind, h)), b, ":" + KindText(BlobKind) + ":" + g);
    assert |k| > |a| by { assert |Chunk(a, Row(BlobKind, h))| > |a|; }
    assert a in m && a !in w;
  }

  lemma JoinedText(a: string, b: string, c: string)
    ensures (a + b) + c == a + (b + c)
  {
  }

  lemma DifferentIds(id: string, moved: string)
    requires moved != ""
    ensures id != id + moved
  {
    assert |id + moved| > |id|;
  }

  lemma TextMoves(front: string, id: string, moved: string, b: string, back: string)
    ensures (front + id) + ((moved + b) + back) == (front + (id + moved)) + (b + back)
  {
    assert (front + id) + moved == front + (id + moved);
    assert (moved + b) + back == moved + (b + back);
    assert (front + id) + (moved + (b + back)) == ((front + id) + moved) + (b + back);
  }

  lemma ChunkShape(k: string, kind: Kind, h: string)
    ensures Chunk(k, Row(kind, h)) == (k + ":" + KindText(kind) + ":") + h
    ensures Chunk(k, Row(kind, h)) == k + (":" + KindText(kind) + ":" + h)
  {
    assert k + (":" + KindText(kind) + ":" + h) == (k + ":" + KindText(kind) + ":") + h;
  }

  lemma TwoRows(k: string, r: Row, l: string, q: Row)
    requires k != l && Before(k, l)
    ensures Serialise(map[k := r, l := q]) == Chunk(k, r) + Chunk(l, q)
  {
    var m := map[k := r, l := q];
    LeastFirst(m, k, [k, l]);
    assert m - {k} == map[l := q];
    LeastFirst(map[l := q], l, [l]);
    assert map[l := q] - {l} == map[];
  }
}
