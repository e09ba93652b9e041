/** The nested message documents the compiler builds, one per language:
    a JSON object whose values are either strings or further objects.
    `SetIn` models the `dset(obj, key, value)` call that writes one
    translation into a document (convert-translations.ts line 78). */
module MessageTree {
  import opened Results

  datatype Tree = Leaf(text: string) | Node(children: map<string, Tree>)

  /** The subtree reached from `t` by following `path`, or `None` when the
      path leaves the tree (a missing key, or a step below a leaf). */
  function Lookup(t: Tree, path: seq<string>): (found: Option<Tree>)
    decreases |path|
  {
    if path == [] then Some(t)
    else if t.Node? && path[0] in t.children then Lookup(t.children[path[0]], path[1..])
    else None
  }

  /** The object that `dset` descends into at key `k`: the existing child
      when it is an object, a fresh empty object otherwise (a missing key,
      or a string that is in the way and gets replaced). */
  function Descend(m: map<string, Tree>, k: string): (child: map<string, Tree>) {
    if k in m && m[k].Node? then m[k].children else map[]
  }

  /** The object `m` after `dset` has written `v` at `path`: intermediate
      objects are kept or created, the last segment is set to the string,
      whatever it held before. An empty path, which `dset` never gets from
      a split key, changes nothing. */
  function SetIn(m: map<string, Tree>, path: seq<string>, v: string): (r: map<string, Tree>)
    ensures path == [] ==> r == m
    ensures path != [] ==> r.Keys == m.Keys + {path[0]}
    ensures path != [] ==> forall k :: k in m && k != path[0] ==> r[k] == m[k]
    ensures |path| == 1 ==> r[path[0]] == Leaf(v)
    ensures |path| > 1 ==> r[path[0]].Node?
    decreases |path|
  {
    if path == [] then m
    else if |path| == 1 then m[path[0] := Leaf(v)]
    else m[path[0] := Node(SetIn(Descend(m, path[0]), path[1..], v))]
  }

  /** `p` and `q` part ways: neither is a prefix of the other. */
  predicate Diverge(p: seq<string>, q: seq<string>) {
    !(p <= q) && !(q <= p)
  }

  /** Looking up a non-empty path below key `k` of an object is looking it
      up in the object `dset` would descend into. */
  lemma LookupDescend(m: map<string, Tree>, k: string, rest: seq<string>)
    requires rest != []
    ensures Lookup(Node(m), [k] + rest) == Lookup(Node(Descend(m, k)), rest)
  {
  }

  /** After the write, the path leads to exactly the written string. */
  lemma {:induction false} SetInFound(m: map<string, Tree>, path: seq<string>, v: string)
    requires path != []
    ensures Lookup(Node(SetIn(m, path, v)), path) == Some(Leaf(v))
    decreases |path|
  {
    if |path| > 1 {
      SetInFound(Descend(m, path[0]), path[1..], v);
    }
  }

  /** A write leaves every path that parts ways with it as it was. */
  lemma {:induction false} SetInDiverging(m: map<string, Tree>, p: seq<string>, q: seq<string>, v: string)
    requires Diverge(p, q)
    ensures Lookup(Node(SetIn(m, p, v)), q) == Lookup(Node(m), q)
    decreases |p|
  {
    if p[0] == q[0] {
      var k := p[0];
      assert |p| > 1;
      assert p == [k] + p[1..] && q == [k] + q[1..];
      assert Diverge(p[1..], q[1..]);
      SetInDiverging(Descend(m, k), p[1..], q[1..], v);
      LookupDescend(m, k, q[1..]);
      LookupDescend(SetIn(m, p, v), k, q[1..]);
    }
  }

  /** Every proper prefix of the written path leads to an object after the
      write: missing intermediate levels are created and strings in the
      way are replaced. */
  lemma {:induction false} SetInIntermediate(m: map<string, Tree>, p: seq<string>, q: seq<string>, v: string)
    requires q < p
    ensures Lookup(Node(SetIn(m, p, v)), q).Some?
    ensures Lookup(Node(SetIn(m, p, v)), q).value.Node?
    decreases |q|
  {
    if q != [] {
      var k := p[0];
      assert q[0] == k && |p| > 1;
      if |q| > 1 {
        assert p == [k] + p[1..] && q == [k] + q[1..];
        SetInIntermediate(Descend(m, k), p[1..], q[1..], v);
        LookupDescend(SetIn(m, p, v), k, q[1..]);
      }
    }
  }

  /** Every string in the document after a write is either the one just
      written, at its path, or one that was already there at the same
      path: a write never invents or moves a translation. */
  lemma {:induction false} SetInLeaves(m: map<string, Tree>, p: seq<string>, v: string, q: seq<string>, w: string)
    requires Lookup(Node(SetIn(m, p, v)), q) == Some(Leaf(w))
    ensures (q == p && w == v) || Lookup(Node(m), q) == Some(Leaf(w))
    decreases |p|
  {
    if p != [] && q != [] && p[0] == q[0] {
      var k := p[0];
      if |p| == 1 {
        assert q == [k];
      } else {
        assert |q| > 1;
        assert p == [k] + p[1..] && q == [k] + q[1..];
        LookupDescend(SetIn(m, p, v), k, q[1..]);
        SetInLeaves(Descend(m, k), p[1..], v, q[1..], w);
        LookupDescend(m, k, q[1..]);
      }
    }
  }

  /** Writing twice at the same path keeps only the second value: the
      later write replaces the earlier one completely. */
  lemma {:induction false} SetInOverwrite(m: map<string, Tree>, p: seq<string>, v: string, w: string)
    ensures SetIn(SetIn(m, p, v), p, w) == SetIn(m, p, w)
    decreases |p|
  {
    if |p| > 1 {
      SetInOverwrite(Descend(m, p[0]), p[1..], v, w);
    }
  }
}
