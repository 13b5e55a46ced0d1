/** Package `directorytree`: a tree of directory names built from slash-separated paths. The
    root is an object whose `Children` map `AddPath` changes in place; the nodes below it are
    modelled as values (Go's nil `Children` map is the empty map). */
module DirTree {
  import opened GoStrings

  /** A node of the tree: its children by folder name. */
  datatype Tree = Tree(children: map<string, Tree>)

  const Empty: Tree := Tree(map[])

  /** The names in `p` form a chain of child links starting at `t`. */
  predicate Contains(t: Tree, p: seq<string>)
    decreases p
  {
    p == [] || (p[0] in t.children && Contains(t.children[p[0]], p[1..]))
  }

  predicate IsPrefix(p: seq<string>, q: seq<string>) {
    |p| <= |q| && p == q[..|p|]
  }

  /** The loop of `AddPath`: walk down `names` from `t`, creating each child that is missing. */
  function Insert(t: Tree, names: seq<string>): (t': Tree)
    ensures t.children.Keys <= t'.children.Keys
    ensures names != [] ==> names[0] in t'.children
    decreases |names|
  {
    if names == [] then t
    else
      var child := if names[0] in t.children then t.children[names[0]] else Empty;
      Tree(t.children[names[0] := Insert(child, names[1..])])
  }

  /** After the walk, every prefix of `names` is a chain of links from the root. */
  lemma {:induction false} InsertAddsPrefixes(t: Tree, names: seq<string>, k: nat)
    requires k <= |names|
    ensures Contains(Insert(t, names), names[..k])
    decreases |names|
  {
    if k > 0 {
      var child := if names[0] in t.children then t.children[names[0]] else Empty;
      InsertAddsPrefixes(child, names[1..], k - 1);
      assert names[..k][1..] == names[1..][..k - 1];
    }
  }

  /** The walk never removes or replaces a child: every chain present before is still there. */
  lemma {:induction false} InsertKeeps(t: Tree, names: seq<string>, p: seq<string>)
    requires Contains(t, p)
    ensures Contains(Insert(t, names), p)
    decreases |names|
  {
    if names != [] && p != [] && p[0] == names[0] {
      InsertKeeps(t.children[p[0]], names[1..], p[1..]);
    }
  }

  /** The walk adds nothing but prefixes of `names`. */
  lemma {:induction false} InsertOnlyPrefixes(t: Tree, names: seq<string>, p: seq<string>)
    requires Contains(Insert(t, names), p)
    ensures Contains(t, p) || IsPrefix(p, names)
    decreases |names|
  {
    if names != [] && p != [] && p[0] == names[0] {
      var child := if names[0] in t.children then t.children[names[0]] else Empty;
      InsertOnlyPrefixes(child, names[1..], p[1..]);
      if !Contains(child, p[1..]) {
        assert p == [p[0]] + p[1..] && names == [names[0]] + names[1..];
      } else if names[0] !in t.children {
        assert child == Empty && p[1..] == [];
        assert p == names[..1];
      }
    }
  }

  /** Walking a chain that is already there changes nothing. */
  lemma {:induction false} InsertPresent(t: Tree, names: seq<string>)
    requires Contains(t, names)
    ensures Insert(t, names) == t
    decreases |names|
  {
    if names != [] {
      InsertPresent(t.children[names[0]], names[1..]);
      assert t.children[names[0] := t.children[names[0]]] == t.children;
    }
  }

  /** Adding the same names twice gives the tree that adding them once gives. */
  lemma InsertIdempotent(t: Tree, names: seq<string>)
    ensures Insert(Insert(t, names), names) == Insert(t, names)
  {
    InsertAddsPrefixes(t, names, |names|);
    assert names[..|names|] == names;
    InsertPresent(Insert(t, names), names);
  }

  /** What `AddPath(dirPath)` does to a tree: nothing for `"/"`, otherwise the walk down the
      pieces of `strings.Split(dirPath, "/")` (a leading `/` gives an empty first name). */
  function AddedPath(t: Tree, dirPath: string): (t': Tree)
    ensures t.children.Keys <= t'.children.Keys
    ensures dirPath != "/" ==> Split(dirPath, '/')[0] in t'.children
  {
    if dirPath == "/" then t else Insert(t, Split(dirPath, '/'))
  }

  /** The chains after `AddPath(dirPath)` are those before and the prefixes of the split path. */
  lemma AddedPathContains(t: Tree, dirPath: string, p: seq<string>)
    ensures Contains(AddedPath(t, dirPath), p) <==>
              Contains(t, p) || (dirPath != "/" && IsPrefix(p, Split(dirPath, '/')))
  {
    if dirPath != "/" {
      var names := Split(dirPath, '/');
      if Contains(t, p) {
        InsertKeeps(t, names, p);
      } else if IsPrefix(p, names) {
        InsertAddsPrefixes(t, names, |p|);
      }
      if Contains(AddedPath(t, dirPath), p) {
        InsertOnlyPrefixes(t, names, p);
      }
    }
  }

  /** `AddPath` is idempotent. */
  lemma AddedPathIdempotent(t: Tree, dirPath: string)
    ensures AddedPath(AddedPath(t, dirPath), dirPath) == AddedPath(t, dirPath)
  {
    if dirPath != "/" {
      InsertIdempotent(t, Split(dirPath, '/'));
    }
  }

  /** What `Build(xs)` does to a tree: `AddPath` of each path in order. */
  function BuildFrom(t: Tree, xs: seq<string>): (t': Tree)
    ensures t.children.Keys <= t'.children.Keys
    ensures forall i :: 0 <= i < |xs| && xs[i] != "/" ==> Split(xs[i], '/')[0] in t'.children
    decreases |xs|
  {
    if xs == [] then t else AddedPath(BuildFrom(t, xs[..|xs| - 1]), xs[|xs| - 1])
  }

  /** Some input other than `"/"` splits into names of which `p` is a prefix. */
  predicate PrefixOfSome(p: seq<string>, xs: seq<string>) {
    exists i :: 0 <= i < |xs| && xs[i] != "/" && IsPrefix(p, Split(xs[i], '/'))
  }

  /** After `Build(xs)` the chains from the root are those there before and the prefixes of the
      split inputs; from an empty root, exactly the prefix closure of the split inputs. */
  lemma {:induction false} BuildContains(t: Tree, xs: seq<string>, p: seq<string>)
    ensures Contains(BuildFrom(t, xs), p) <==> Contains(t, p) || PrefixOfSome(p, xs)
    decreases |xs|
  {
    if xs != [] {
      var init, last := xs[..|xs| - 1], xs[|xs| - 1];
      BuildContains(t, init, p);
      AddedPathContains(BuildFrom(t, init), last, p);
      if PrefixOfSome(p, xs) {
        var i :| 0 <= i < |xs| && xs[i] != "/" && IsPrefix(p, Split(xs[i], '/'));
        if i < |xs| - 1 {
          assert init[i] == xs[i];
        }
      }
      if PrefixOfSome(p, init) {
        var i :| 0 <= i < |init| && init[i] != "/" && IsPrefix(p, Split(init[i], '/'));
        assert xs[i] == init[i];
      }
    }
  }

  /** `DirectoryTree`, the root of the tree. */
  class DirectoryTree {
    var Children: map<string, Tree>

    /** The whole tree as a value. */
    function Value(): Tree
      reads this
    {
      Tree(Children)
    }

    /** The zero value: a root without children. */
    constructor ()
      ensures Children == map[]
    {
      Children := map[];
    }

    /** `AddPath`: adds the chain of names of `dirPath` below the root. */
    method AddPath(dirPath: string)
      modifies this
      ensures Value() == AddedPath(old(Value()), dirPath)
      ensures dirPath == "/" ==> Children == old(Children)
    {
      if dirPath == "/" {
        return;
      }
      var names := Split(dirPath, '/');
      Children := Insert(Tree(Children), names).children;
    }

    /** `Build`: `AddPath` for each path in order. */
    method Build(xDirPath: seq<string>)
      modifies this
      ensures Value() == BuildFrom(old(Value()), xDirPath)
    {
      for i := 0 to |xDirPath|
        invariant Value() == BuildFrom(old(Value()), xDirPath[..i])
      {
        assert xDirPath[..i + 1][..i] == xDirPath[..i];
        AddPath(xDirPath[i]);
      }
      assert xDirPath[..|xDirPath|] == xDirPath;
    }
  }
}
