/** Path lookup over the tree of vfs nodes, and the calls that create and remove nodes. */
module Namei {

  import opened Lists

  const MAX_FILENAME: nat := 128

  // ------------------------------------------------------------------------ names

  /** A C string: reading at its end yields the terminator. */
  function At(path: string, i: nat): char
    requires i <= |path|
  {
    if i < |path| then path[i] else '\0'
  }

  predicate CString(path: string) { '\0' !in path }

  /** Where the name that starts at i ends. */
  function EndOfName(path: string, i: nat): (e: nat)
    requires i <= |path|
    ensures i <= e <= |path| && (e == |path| || path[e] == '/')
    ensures forall j {:trigger path[j]} :: i <= j < e ==> path[j] != '/'
    decreases |path| - i
  {
    if i == |path| || path[i] == '/' then i else EndOfName(path, i + 1)
  }

  /** The names of a path from index i on.  One slash at the end is ignored; a name that
      is too long is cut and taken for the last one. */
  function Names(path: string, i: nat): (names: seq<string>)
    requires i <= |path|
    ensures |names| > 0
    decreases |path| - i
  {
    var e := EndOfName(path, i);
    if e - i > MAX_FILENAME then [path[i..i + MAX_FILENAME - 1]]
    else if e + 1 >= |path| then [path[i..e]]
    else [path[i..e]] + Names(path, e + 1)
  }

  /** No name of the path has the one length for which the buffer is overrun. */
  ghost predicate NoOverrun(path: string) {
    forall i {:trigger EndOfName(path, i)} :: 0 <= i <= |path| && (i == 0 || path[i - 1] == '/') ==> EndOfName(path, i) - i != MAX_FILENAME
  }

  ghost predicate NoEmptyName(names: seq<string>) {
    forall k {:trigger names[k]} :: 0 <= k < |names| ==> names[k] != ""
  }

  function Init(names: seq<string>): seq<string>
    requires |names| > 0
  {
    names[..|names| - 1]
  }

  function Last(names: seq<string>): string
    requires |names| > 0
  {
    names[|names| - 1]
  }

  predicate GoodName(name: string) {
    name != "" && '/' !in name && '\0' !in name && |name| < MAX_FILENAME
  }

  ghost predicate GoodNames(names: seq<string>) {
    forall k {:trigger names[k]} :: 0 <= k < |names| ==> GoodName(names[k])
  }

  function Join(names: seq<string>): string
    requires |names| > 0
  {
    if |names| == 1 then names[0] else names[0] + "/" + Join(names[1..])
  }

  /** Splitting undoes joining, with or without a slash at the end. */
  lemma {:induction false} NamesOfJoin(prefix: string, names: seq<string>, tail: string)
    requires |names| > 0 && GoodNames(names) && (tail == "" || tail == "/")
    ensures Names(prefix + Join(names) + tail, |prefix|) == names
    decreases |names|
  {
    hide Names, EndOfName, NoEmptyName;
    var name := names[0];
    assert GoodName(name);
    if |names| == 1 {
      NameEnds(prefix, name, tail);
      SoleName(prefix + name + tail, |prefix|, name);
      assert names == [name];
    } else {
      var joined := Join(names[1..]);
      NameEnds(prefix, name, "/" + joined + tail);
      JoinIsNotEmpty(names[1..]);
      Regrouped(prefix, name, joined, tail);
      NamesOfJoin(prefix + name + "/", names[1..], tail);
      NextName(prefix + name + ("/" + joined + tail), |prefix|, name, names[1..]);
      assert names == [name] + names[1..];
    }
  }

  lemma Regrouped(prefix: string, name: string, joined: string, tail: string)
    ensures prefix + (name + "/" + joined) + tail == prefix + name + ("/" + joined + tail)
    ensures (prefix + name + "/") + joined + tail == prefix + name + ("/" + joined + tail)
  {
  }

  lemma {:induction false} JoinIsNotEmpty(names: seq<string>)
    requires |names| > 0 && GoodNames(names)
    ensures Join(names) != ""
  {
    assert names[0] != "";
  }

  lemma {:induction false} SoleName(path: string, i: nat, name: string)
    requires i + |name| <= |path| <= i + |name| + 1 && |name| < MAX_FILENAME && EndOfName(path, i) == i + |name|
    requires path[i..i + |name|] == name
    ensures Names(path, i) == [name]
  {
  }

  lemma NextName(path: string, i: nat, name: string, rest: seq<string>)
    requires i + |name| + 1 < |path| && |name| < MAX_FILENAME && EndOfName(path, i) == i + |name|
    requires path[i..i + |name|] == name && Names(path, i + |name| + 1) == rest
    ensures Names(path, i) == [name] + rest
  {
  }

  /** A name ends at the slash behind it, or with the path. */
  lemma {:induction false} NameEnds(prefix: string, name: string, tail: string)
    requires '/' !in name && (tail == "" || tail[0] == '/')
    ensures EndOfName(prefix + name + tail, |prefix|) == |prefix| + |name|
    ensures (prefix + name + tail)[|prefix|..|prefix| + |name|] == name
  {
    var path, i := prefix + name + tail, |prefix|;
    assert forall j {:trigger path[j]} :: i <= j < i + |name| ==> path[j] == name[j - i];
    EndIs(path, i, i + |name|);
  }

  lemma {:induction false} EndIs(path: string, i: nat, e: nat)
    requires i <= e <= |path| && (e == |path| || path[e] == '/')
    requires forall j {:trigger path[j]} :: i <= j < e ==> path[j] != '/'
    ensures EndOfName(path, i) == e
    decreases e - i
  {
    if i < e { EndIs(path, i + 1, e); }
  }

  /** The start of the last name among the first i characters: behind the last slash that
      does not end the path. */
  function LastNameStart(path: string, i: nat): (k: nat)
    requires 0 < |path| && i <= |path|
    ensures 0 < k <= |path| && (k == 1 || k < |path|)
  {
    if i == 0 then 1
    else if path[i - 1] == '/' && i < |path| then i
    else LastNameStart(path, i - 1)
  }

  /** The last name of a path, without the slash behind it. */
  function FileName(path: string): string
    requires 0 < |path|
  {
    var name := path[LastNameStart(path, |path|)..];
    if name != "" && name[|name| - 1] == '/' then name[..|name| - 1] else name
  }

  lemma {:induction false} LastStartIs(path: string, s: nat, i: nat)
    requires 0 < s <= i <= |path| && s < |path| && path[s - 1] == '/'
    requires forall j {:trigger path[j]} :: s <= j < |path| - 1 ==> path[j] != '/'
    ensures LastNameStart(path, i) == s
  {
    if i > s { LastStartIs(path, s, i - 1); }
  }

  lemma {:induction false} LastFileName(path: string, i: nat, e: nat)
    requires 0 < i <= e <= |path| <= e + 1 && i < |path| && path[i - 1] == '/' && (e == |path| || path[e] == '/')
    requires forall j {:trigger path[j]} :: i <= j < e ==> path[j] != '/'
    ensures FileName(path) == path[i..e]
  {
    LastStartIs(path, i, |path|);
    if e < |path| { assert path[i..][..|path[i..]| - 1] == path[i..e]; } else { assert path[i..] == path[i..e]; }
  }

  /** The components of a path from index i on, none of them cut. */
  function Components(path: string, i: nat): (parts: seq<string>)
    requires i <= |path|
    ensures |parts| > 0
    decreases |path| - i
  {
    var e := EndOfName(path, i);
    if e + 1 >= |path| then [path[i..e]] else [path[i..e]] + Components(path, e + 1)
  }

  /** The first component that is too long for the lookup's buffer; their number if none is. */
  function FirstLong(parts: seq<string>): (k: nat)
    ensures k <= |parts| && (k < |parts| ==> |parts[k]| > MAX_FILENAME)
    ensures forall j {:trigger parts[j]} :: 0 <= j < k ==> |parts[j]| <= MAX_FILENAME
  {
    if parts == [] || |parts[0]| > MAX_FILENAME then 0 else FirstLong(parts[1..]) + 1
  }

  /** The names looked up are the components before the first that is too long, and its beginning. */
  lemma {:induction false} NamesAreCut(path: string, i: nat)
    requires i <= |path|
    ensures Names(path, i) == Cut(Components(path, i))
    decreases |path| - i
  {
    hide Names, Components, Cut, EndOfName;
    var e := EndOfName(path, i);
    PathStep(path, i);
    if e - i > MAX_FILENAME { assert path[i..e][..MAX_FILENAME - 1] == path[i..i + MAX_FILENAME - 1]; }
    if e + 1 >= |path| {
      CutStep(path[i..e], []);
      assert [path[i..e]] + [] == [path[i..e]];
    } else {
      NamesAreCut(path, e + 1);
      CutStep(path[i..e], Components(path, e + 1));
    }
  }

  /** Components as the lookup sees them. */
  function Cut(parts: seq<string>): seq<string> {
    var k := FirstLong(parts);
    if k == |parts| then parts else parts[..k] + [parts[k][..MAX_FILENAME - 1]]
  }

  lemma {:induction false} CutStep(part: string, rest: seq<string>)
    ensures Cut([part] + rest) == if |part| > MAX_FILENAME then [part[..MAX_FILENAME - 1]] else [part] + Cut(rest)
    ensures Cut([]) == []
  {
    var parts := [part] + rest;
    assert parts[1..] == rest;
    if |part| <= MAX_FILENAME {
      var k := FirstLong(rest);
      assert parts[..k + 1] == [part] + rest[..k];
    }
  }

  lemma {:induction false} PathStep(path: string, i: nat)
    requires i <= |path|
    ensures var e := EndOfName(path, i);
      && Components(path, i) == (if e + 1 >= |path| then [path[i..e]] else [path[i..e]] + Components(path, e + 1))
      && Names(path, i) == (if e - i > MAX_FILENAME then [path[i..i + MAX_FILENAME - 1]]
                            else if e + 1 >= |path| then [path[i..e]] else [path[i..e]] + Names(path, e + 1))
  {
    hide EndOfName, Components;
    ComponentsStep(path, i);
  }

  lemma {:induction false} ComponentsStep(path: string, i: nat)
    requires i <= |path|
    ensures var e := EndOfName(path, i);
      Components(path, i) == (if e + 1 >= |path| then [path[i..e]] else [path[i..e]] + Components(path, e + 1))
  {
    hide EndOfName, Names;
  }

  /** The file name is the last component of the path. */
  lemma {:induction false} FileNameIsLastComponent(path: string, i: nat)
    requires 0 < i <= |path| && path[i - 1] == '/' && (i < |path| || i == 1)
    ensures FileName(path) == Last(Components(path, i))
    decreases |path| - i
  {
    hide EndOfName, FileName;
    var e := EndOfName(path, i);
    if e + 1 < |path| {
      FileNameIsLastComponent(path, e + 1);
    } else if i < |path| {
      LastFileName(path, i, e);
    } else {
      RootHasNoName(path);
    }
  }

  lemma {:induction false} RootHasNoName(path: string)
    requires path == "/"
    ensures FileName(path) == ""
  {
  }

  /** The name under which a missing node is created is the name the lookup missed if and only
      if no component is too long, or the last one is how the first of these begins. */
  lemma {:induction false} FileNameIsLastNameIff(path: string)
    requires path != "" && path[0] == '/'
    ensures var parts := Components(path, 1); var k := FirstLong(parts);
      FileName(path) == Last(Names(path, 1)) <==> k == |parts| || Last(parts) == parts[k][..MAX_FILENAME - 1]
  {
    hide Components, Names, FileName;
    NamesAreCut(path, 1);
    FileNameIsLastComponent(path, 1);
  }

  /** Both happen: a long directory name makes them differ, unless the file is named as the
      directory's name is cut. */
  lemma {:induction false} LongNameMisleads(long: string, name: string)
    requires |long| > MAX_FILENAME && '/' !in long && name != "" && '/' !in name && |name| < MAX_FILENAME
    ensures var path := "/" + long + "/" + name;
      Names(path, 1) == [long[..MAX_FILENAME - 1]] && FileName(path) == name
  {
    var path, e := "/" + long + "/" + name, 1 + |long|;
    assert forall j {:trigger path[j]} :: 1 <= j < e ==> path[j] == long[j - 1];
    assert forall j {:trigger path[j]} :: e + 1 <= j < |path| ==> path[j] == name[j - e - 1];
    EndIs(path, 1, e);
    assert path[1..1 + MAX_FILENAME - 1] == long[..MAX_FILENAME - 1];
    LastFileName(path, e + 1, |path|);
    assert path[e + 1..] == name;
  }

  // ------------------------------------------------------------------- the name tree

  /** What a directory holds, by name. */
  type Tree = map<VNode, map<string, VNode>>

  function Kid(t: Tree, n: VNode, name: string): VNode? {
    if n in t && name in t[n] then t[n][name] else null
  }

  /** The node that the names lead to from n. */
  function Walk(t: Tree, n: VNode, names: seq<string>): VNode?
    decreases |names|
  {
    if names == [] then n
    else var k := Kid(t, n, names[0]); if k == null then null else Walk(t, k, names[1..])
  }

  datatype Found = Found(node: VNode?, parent: VNode?)

  /** What the lookup loop answers when it stands at n with these names to go.  An empty
      name ends it on the spot. */
  function Resolve(t: Tree, n: VNode, names: seq<string>): Found
    requires |names| > 0
    decreases |names|
  {
    if names[0] == "" then Found(n, n)
    else
      var k := Kid(t, n, names[0]);
      if k == null then Found(null, if |names| == 1 then n else null)
      else if |names| == 1 then Found(k, n)
      else Resolve(t, k, names[1..])
  }

  lemma {:induction false} WalkInit(t: Tree, n: VNode, names: seq<string>)
    requires |names| > 0
    ensures Walk(t, n, names) == if Walk(t, n, Init(names)) == null then null else Kid(t, Walk(t, n, Init(names)), Last(names))
    decreases |names|
  {
    var k := Kid(t, n, names[0]);
    if |names| > 1 && k != null {
      WalkInit(t, k, names[1..]);
      assert Init(names)[1..] == Init(names[1..]);
    } else if |names| == 1 {
      assert names[1..] == [];
    }
  }

  /** Lookup follows the tree: the node at the end of the names, and the one before it. */
  lemma {:induction false} ResolveIsWalk(t: Tree, n: VNode, names: seq<string>)
    requires |names| > 0 && NoEmptyName(names)
    ensures Resolve(t, n, names) == Found(Walk(t, n, names), Walk(t, n, Init(names)))
    decreases |names|
  {
    var k := Kid(t, n, names[0]);
    assert names[0] != "";
    if |names| > 1 {
      assert Init(names)[0] == names[0];
      if k != null {
        ResolveIsWalk(t, k, names[1..]);
        assert Init(names)[1..] == Init(names[1..]);
      }
    } else {
      assert names[1..] == [] && Init(names) == [];
    }
  }

  /** The path spelled by good names, looked up from the root. */
  lemma {:induction false} JoinedNamesResolve(t: Tree, root: VNode, names: seq<string>, tail: string)
    requires |names| > 0 && GoodNames(names) && (tail == "" || tail == "/")
    ensures var path := "/" + Join(names) + tail;
      Resolve(t, root, Names(path, 1)) == Found(Walk(t, root, names), Walk(t, root, Init(names)))
  {
    NamesOfJoin("/", names, tail);
    ResolveIsWalk(t, root, names);
  }

  /** The names before the first empty one. */
  function Effective(names: seq<string>): seq<string> {
    if names == [] || names[0] == "" then [] else [names[0]] + Effective(names[1..])
  }

  lemma {:induction false} ResolveStopsAtEmpty(t: Tree, n: VNode, names: seq<string>)
    requires |names| > 0
    ensures Resolve(t, n, names).node == Walk(t, n, Effective(names))
    decreases |names|
  {
    if names[0] != "" {
      var k := Kid(t, n, names[0]);
      assert Effective(names)[1..] == Effective(names[1..]);
      if |names| > 1 && k != null {
        ResolveStopsAtEmpty(t, k, names[1..]);
      } else {
        assert |names| == 1 ==> Effective(names[1..]) == [];
      }
    }
  }

  // ------------------------------------------------------ trees that grow and shrink

  /** Everything held is a node of the tree, and is held once. */
  ghost predicate Closed(t: Tree) {
    && (forall n, name {:trigger t[n][name]} :: n in t && name in t[n] ==> t[n][name] in t)
    && (forall n, name, m, name' {:trigger t[n][name], t[m][name']} ::
          n in t && name in t[n] && m in t && name' in t[m] && t[n][name] == t[m][name'] ==> n == m && name == name')
  }

  function Grown(t: Tree, p: VNode, name: string, c: VNode): Tree
    requires p in t
  {
    t[c := map[]][p := t[p][name := c]]
  }

  function Shrunk(t: Tree, p: VNode, name: string, c: VNode): Tree
    requires p in t
  {
    (t - {c})[p := t[p] - {name}]
  }

  lemma GrownAt(t: Tree, p: VNode, name: string, c: VNode)
    requires p in t && c !in t
    ensures forall n {:trigger n in Grown(t, p, name, c)} :: n in Grown(t, p, name, c) <==> n in t || n == c
    ensures forall n {:trigger Grown(t, p, name, c)[n]} :: n in t && n != p ==> Grown(t, p, name, c)[n] == t[n]
    ensures Grown(t, p, name, c)[c] == map[] && Grown(t, p, name, c)[p] == t[p][name := c]
  {
  }

  lemma ShrunkAt(t: Tree, p: VNode, name: string, c: VNode)
    requires p in t && c in t && c != p
    ensures forall n {:trigger n in Shrunk(t, p, name, c)} :: n in Shrunk(t, p, name, c) <==> n in t && n != c
    ensures forall n {:trigger Shrunk(t, p, name, c)[n]} :: n in t && n != p && n != c ==> Shrunk(t, p, name, c)[n] == t[n]
    ensures Shrunk(t, p, name, c)[p] == t[p] - {name}
  {
  }

  ghost predicate NotHeld(t: Tree, c: VNode) {
    forall n, name {:trigger t[n][name]} :: n in t && name in t[n] ==> t[n][name] != c
  }

  lemma GrownHolds(t: Tree, p: VNode, name: string, c: VNode)
    requires Closed(t) && p in t && c !in t && Kid(t, p, name) == null
    ensures var t' := Grown(t, p, name, c);
      forall n, nm {:trigger t'[n][nm]} :: n in t' && nm in t'[n] ==>
        t'[n][nm] in t' && if n == p && nm == name then t'[n][nm] == c else n in t && nm in t[n] && t'[n][nm] == t[n][nm]
  {
    var t' := Grown(t, p, name, c);
    forall n, nm | n in t' && nm in t'[n]
      ensures t'[n][nm] in t' && if n == p && nm == name then t'[n][nm] == c else n in t && nm in t[n] && t'[n][nm] == t[n][nm]
    {
      if n != p || nm != name { assert t[n][nm] in t; }
    }
  }

  lemma GrownClosed(t: Tree, p: VNode, name: string, c: VNode, root: VNode)
    requires Closed(t) && p in t && c !in t && Kid(t, p, name) == null && root in t && NotHeld(t, root)
    ensures Closed(Grown(t, p, name, c)) && root in Grown(t, p, name, c) && NotHeld(Grown(t, p, name, c), root)
  {
    GrownHolds(t, p, name, c);
    var t' := Grown(t, p, name, c);
    assert forall n, nm {:trigger t[n][nm]} :: n in t && nm in t[n] ==> t[n][nm] != c;
  }

  lemma ShrunkClosed(t: Tree, p: VNode, name: string, c: VNode, root: VNode)
    requires Closed(t) && p in t && c in t && c != p && Kid(t, p, name) == c && root in t && c != root && NotHeld(t, root)
    ensures Closed(Shrunk(t, p, name, c)) && root in Shrunk(t, p, name, c) && NotHeld(Shrunk(t, p, name, c), root)
  {
    var t' := Shrunk(t, p, name, c);
    forall n, nm | n in t' && nm in t'[n] ensures t'[n][nm] in t' && n in t && nm in t[n] && t'[n][nm] == t[n][nm] {
      assert t[n][nm] in t && t[p][name] == c;
    }
  }

  /** A new node is found under its own path and no other lookup changes. */
  lemma {:induction false} WalkInGrown(t: Tree, p: VNode, name: string, c: VNode, n: VNode, names: seq<string>)
    requires Closed(t) && p in t && n in t && c !in t && Kid(t, p, name) == null
    ensures Walk(Grown(t, p, name, c), n, names) ==
      if names != [] && Walk(t, n, Init(names)) == p && Last(names) == name then c else Walk(t, n, names)
    decreases |names|
  {
    var t' := Grown(t, p, name, c);
    if names != [] {
      var k := Kid(t, n, names[0]);
      assert Kid(t', n, names[0]) == if n == p && names[0] == name then c else k;
      WalkInit(t, n, names);
      if |names| > 1 {
        assert Init(names)[0] == names[0] && Init(names)[1..] == Init(names[1..]);
        if k != null {
          WalkInGrown(t, p, name, c, k, names[1..]);
        } else if n == p && names[0] == name {
          assert Kid(t', c, names[1..][0]) == null;
        }
      }
    }
  }

  /** A removed node is not found any more and no other lookup changes. */
  lemma {:induction false} WalkInShrunk(t: Tree, p: VNode, name: string, c: VNode, n: VNode, names: seq<string>)
    requires Closed(t) && p in t && n in t && c in t && t[c] == map[] && Kid(t, p, name) == c && n != c && p != c
    ensures Walk(Shrunk(t, p, name, c), n, names) == if Walk(t, n, names) == c then null else Walk(t, n, names)
    decreases |names|
  {
    var t' := Shrunk(t, p, name, c);
    if names != [] {
      var k := Kid(t, n, names[0]);
      assert Kid(t', n, names[0]) == if k == c then null else k;
      if k != null {
        if k == c {
          if |names| > 1 { assert Kid(t, c, names[1..][0]) == null; }
        } else {
          WalkInShrunk(t, p, name, c, k, names[1..]);
        }
      }
    }
  }

  // --------------------------------------------------------------------- the nodes

  datatype VType = File | Directory | Device | MountPoint

  /** Which operations the driver of a node offers; ramfs, the one driver that creates
      nodes, never fails in them. */
  datatype Ops = Ops(open: bool, touch: bool, remove: bool, mkdir: bool, rmdir: bool)

  const ROOT_OPS: Ops := Ops(false, true, true, true, false)
  const RAMFS_DIR_OPS: Ops := Ops(true, true, false, true, true)
  const RAMFS_FILE_OPS: Ops := Ops(true, false, true, false, false)

  datatype Errno = OK | EEXIST | EINVAL | ENOTDIR | ENOENT | EBUSY | EISDIR | EACCES

  class VNode {
    const name: string
    const ops: Ops
    var vType: VType
    var activeFds: nat
    var parent: VNode?
    var firstChild: VNode?
    var lastChild: VNode?
    var prevSibling: VNode?
    var nextSibling: VNode?
    ghost var kids: seq<VNode>

    constructor (name: string, vType: VType, ops: Ops)
      ensures this.name == name && this.vType == vType && this.ops == ops && activeFds == 0
      ensures parent == null && kids == [] && KidsLinked()
    {
      this.name, this.vType, this.ops, activeFds := name, vType, ops, 0;
      parent, firstChild, lastChild, prevSibling, nextSibling := null, null, null, null, null;
      kids := [];
    }

    ghost predicate SiblingsLinked()
      reads this`kids, kids`prevSibling, kids`nextSibling
    {
      && (forall i {:trigger kids[i].nextSibling} :: 0 <= i < |kids| ==> kids[i].nextSibling == if i + 1 < |kids| then kids[i + 1] else null)
      && (forall i {:trigger kids[i].prevSibling} :: 0 <= i < |kids| ==> kids[i].prevSibling == if i > 0 then kids[i - 1] else null)
      && Distinct(kids)
    }

    /** The sibling pointers spell `kids`, in both directions. */
    ghost predicate KidsLinked()
      reads this`kids, this`firstChild, this`lastChild, kids`prevSibling, kids`nextSibling
    {
      && firstChild == (if kids == [] then null else kids[0])
      && lastChild == (if kids == [] then null else kids[|kids| - 1])
      && SiblingsLinked()
    }

    /** `namei_add_child` */
    method AddChild(child: VNode)
      requires KidsLinked() && child !in kids
      modifies this`firstChild, this`lastChild, this`kids, child`parent, child`prevSibling, child`nextSibling, kids`nextSibling
      ensures KidsLinked() && kids == old(kids) + [child] && child.parent == this
    {
      child.parent := this;
      if firstChild == null {
        child.prevSibling, child.nextSibling := null, null;
        firstChild, lastChild := child, child;
      } else {
        lastChild.nextSibling := child;
        child.prevSibling := lastChild;
        child.nextSibling := null;
        lastChild := child;
      }
      kids := kids + [child];
    }

    /** `namei_remove_child`, for a child of this node. */
    method RemoveChild(child: VNode, ghost i: nat)
      requires KidsLinked() && i < |kids| && child == kids[i]
      modifies this`firstChild, this`lastChild, this`kids, kids`prevSibling, kids`nextSibling
      ensures KidsLinked() && kids == RemovedAt(old(kids), i)
    {
      assert child.prevSibling == if i > 0 then kids[i - 1] else null;
      assert child.nextSibling == if i + 1 < |kids| then kids[i + 1] else null;
      if child.prevSibling == null {
        var done := RemoveFirst(child);
        if done {
          return;
        }
      }
      RemoveFromEnd(child, i);
    }

    method RemoveFirst(child: VNode) returns (done: bool)
      requires KidsLinked() && kids != [] && child == kids[0]
      modifies this`firstChild, this`kids, kids`prevSibling
      ensures done <==> |old(kids)| > 1
      ensures done ==> KidsLinked() && kids == RemovedAt(old(kids), 0)
      ensures !done ==> firstChild == null && kids == old(kids) && child.prevSibling == old(child.prevSibling)
    {
      assert child.nextSibling == if 1 < |kids| then kids[1] else null;
      firstChild := child.nextSibling;
      done := firstChild != null;
      if done {
        kids := RemovedAt(kids, 0);
        firstChild.prevSibling := null;
      }
    }

    method RemoveFromEnd(child: VNode, ghost i: nat)
      requires i < |kids| && child == kids[i] && (i == 0 ==> |kids| == 1) && SiblingsLinked()
      requires firstChild == (if i == 0 then null else kids[0]) && lastChild == kids[|kids| - 1]
      modifies this`lastChild, this`kids, kids`prevSibling, kids`nextSibling
      ensures KidsLinked() && kids == RemovedAt(old(kids), i)
    {
      assert child.nextSibling == if i + 1 < |kids| then kids[i + 1] else null;
      assert child.prevSibling == if i > 0 then kids[i - 1] else null;
      if child.nextSibling == null {
        lastChild := child.prevSibling;
        if lastChild != null {
          lastChild.nextSibling := null;
        }
        kids := RemovedAt(kids, i);
      } else {
        RemoveInner(child, i);
      }
    }

    method RemoveInner(child: VNode, ghost i: nat)
      requires 0 < i < |kids| - 1 && child == kids[i] && SiblingsLinked()
      modifies this`kids, kids`prevSibling, kids`nextSibling
      ensures SiblingsLinked() && kids == RemovedAt(old(kids), i)
    {
      assert child.nextSibling == kids[i + 1] && child.prevSibling == kids[i - 1];
      DistinctRemovedAt(kids, i);
      child.prevSibling.nextSibling := child.nextSibling;
      child.nextSibling.prevSibling := child.prevSibling;
      kids := RemovedAt(kids, i);
    }
  }

  // ---------------------------------------------------------------------- the calls

  class FileTree {
    const root: VNode
    ghost var tree: Tree

    /** The list of a node's children holds what the tree says, name by name. */
    ghost predicate Family(n: VNode)
      requires n in tree
      reads this`tree, n`kids, n`firstChild, n`lastChild, n.kids`prevSibling, n.kids`nextSibling, n.kids`parent
    {
      && n.KidsLinked()
      && (forall i {:trigger n.kids[i]} :: 0 <= i < |n.kids| ==> n.kids[i].parent == n && Kid(tree, n, n.kids[i].name) == n.kids[i])
      && (forall name {:trigger tree[n][name]} :: name in tree[n] ==> tree[n][name] in n.kids && tree[n][name].name == name)
    }

    /** Only directories hold anything or can be added to. */
    ghost predicate KindOk(n: VNode)
      requires n in tree
      reads this`tree, n`vType
    {
      && (tree[n] != map[] || n.ops.touch || n.ops.mkdir ==> n.vType == Directory)
      && n.vType != MountPoint
    }

    ghost predicate KidsInTree()
      reads this`tree, tree.Keys`kids
    {
      forall n, i {:trigger n.kids[i], n in tree} :: n in tree && 0 <= i < |n.kids| ==> n.kids[i] in tree
    }

    ghost predicate Valid()
      reads this`tree, tree.Keys`kids, tree.Keys`firstChild, tree.Keys`lastChild, tree.Keys`prevSibling, tree.Keys`nextSibling
      reads tree.Keys`parent, tree.Keys`vType
    {
      && root in tree && root.ops == ROOT_OPS && Closed(tree) && KidsInTree()
      && root.vType == Directory
      && (forall n {:trigger Family(n)} :: n in tree ==> Family(n))
      && (forall n {:trigger KindOk(n)} :: n in tree ==> KindOk(n))
      && NotHeld(tree, root)
    }

    /** `namei_init` */
    constructor ()
      ensures Valid() && tree == map[root := map[]]
    {
      var r := new VNode("/", Directory, ROOT_OPS);
      root := r;
      tree := map[r := map[]];
    }

    /** `_find_child` */
    method FindChild(parent: VNode, name: string) returns (child: VNode?)
      requires Valid() && parent in tree
      ensures child == Kid(tree, parent, name)
    {
      var tmp := parent.firstChild;
      ghost var k := 0;
      assert Family(parent);
      while tmp != null
        invariant k <= |parent.kids| && tmp == (if k < |parent.kids| then parent.kids[k] else null)
        invariant forall i {:trigger parent.kids[i]} :: 0 <= i < k ==> parent.kids[i].name != name
        decreases |parent.kids| - k
      {
        assert parent.kids[k].nextSibling == if k + 1 < |parent.kids| then parent.kids[k + 1] else null;
        if tmp.name == name {
          return tmp;
        }
        tmp := tmp.nextSibling;
        k := k + 1;
      }
      return null;
    }

    /** `_path_deconcatenator`: the name that starts at `start`, and where the next one starts,
        0 for none. */
    static method PathDeconcatenator(path: string, start: nat) returns (next: nat, name: string)
      requires CString(path) && start <= |path| && EndOfName(path, start) - start != MAX_FILENAME
      ensures next != 0 ==> start < next <= |path| && path[next - 1] == '/'
      ensures Names(path, start) == [name] + if next == 0 then [] else Names(path, next)
    {
      var pathLen := |path| + 1;
      var idx := start;
      name := "";
      while idx < pathLen
        invariant start <= idx <= |path| && name == path[start..idx] && |name| <= MAX_FILENAME
        invariant EndOfName(path, idx) == EndOfName(path, start)
      {
        if At(path, idx) == '/' || At(path, idx) == '\0' {
          idx := idx + 1;
          break;
        }
        if |name| == MAX_FILENAME {
          name := name[..MAX_FILENAME - 1];
          assert name == path[start..start + MAX_FILENAME - 1];
          return 0, name;
        }
        name := name + [path[idx]];
        idx := idx + 1;
      }
      if At(path, idx - 1) == '/' && At(path, idx) == '\0' {
        idx := idx + 1;
      }
      next := if idx == pathLen then 0 else idx;
    }

    /** `namei_path_to_vfs_node`, from the root or another start. */
    method NameiPathToVfsNode(from: VNode?, path: string) returns (node: VNode?, parent: VNode?)
      requires Valid() && CString(path) && NoOverrun(path) && (from != null ==> from in tree)
      ensures path == "" || path[0] != '/' ==> node == null && parent == null
      ensures path != "" && path[0] == '/' ==>
        Found(node, parent) == Resolve(tree, if from == null then root else from, Names(path, 1))
      ensures node != null ==> node in tree
      ensures parent != null ==> parent in tree
    {
      if At(path, 0) != '/' {
        return null, null;
      }
      var next, name := PathDeconcatenator(path, 1);
      var tmp: VNode := root;
      if from != null {
        tmp := from;
      }
      ghost var start, names := tmp, Names(path, 1);
      while true
        invariant tmp in tree && (next != 0 ==> 1 < next <= |path| && path[next - 1] == '/')
        invariant |names| > 0 && Resolve(tree, tmp, names) == Resolve(tree, start, Names(path, 1))
        invariant names == [name] + if next == 0 then [] else Names(path, next)
        decreases if next == 0 then 0 else |path| + 1 - next
      {
        var prev := tmp;
        if name == "" {
          return tmp, tmp;
        }
        var child := FindChild(tmp, name);
        if child == null {
          return null, if next == 0 then prev else null;
        }
        if next == 0 {
          return child, prev;
        }
        tmp := child;
        names := names[1..];
        next, name := PathDeconcatenator(path, next);
      }
    }

    /** `namei_path_to_filename` */
    static method NameiPathToFilename(path: string) returns (name: string)
      requires CString(path) && |path| > 1 && |path| - LastNameStart(path, |path|) < MAX_FILENAME
      ensures name == FileName(path)
    {
      var last, i := 0, 0;
      while At(path, i) != '\0'
        invariant i <= |path| && last < |path| && LastNameStart(path, i) == last + 1
        decreases |path| - i
      {
        if path[i] == '/' && At(path, i + 1) != '\0' {
          last := i;
        }
        i := i + 1;
      }
      name := path[last + 1..];
      if name[|name| - 1] == '/' {
        name := name[..|name| - 1];
      }
    }

    // --------------------------------------------------------- creating and removing

    /** The sibling links of one directory are not those of another. */
    lemma OtherFamilies(parent: VNode)
      requires Valid() && parent in tree
      ensures Family(parent) && forall n {:trigger n in tree} :: n in tree ==> n.KidsLinked()
      ensures forall n, i {:trigger n.kids[i]} :: n in tree && 0 <= i < |n.kids| ==> n.kids[i] in tree && n.kids[i].parent == n
      ensures forall n, i, j {:trigger n.kids[i], parent.kids[j]} :: n in tree && n != parent && 0 <= i < |n.kids| && 0 <= j < |parent.kids| ==>
        n.kids[i] != parent.kids[j]
    {
      forall n | n in tree ensures n.KidsLinked() {
        assert Family(n);
      }
      forall n, i | n in tree && 0 <= i < |n.kids| ensures n.kids[i] in tree && n.kids[i].parent == n {
        assert Family(n);
      }
    }

    /** No other directory's list is touched. */
    method LinkUnder(parent: VNode, child: VNode)
      requires Valid() && parent in tree && child !in tree && child.kids == [] && child.KidsLinked()
      modifies parent`firstChild, parent`lastChild, parent`kids, parent.kids`nextSibling
      modifies child`parent, child`prevSibling, child`nextSibling
      ensures parent.kids == old(parent.kids) + [child] && child.parent == parent && child.KidsLinked()
      ensures forall n {:trigger n in tree} :: n in tree ==> n.KidsLinked()
    {
      hide Valid, Family, Distinct, Closed, VNode.KidsLinked;
      OtherFamilies(parent);
      assert forall i {:trigger parent.kids[i]} :: 0 <= i < |parent.kids| ==> parent.kids[i] in tree;
      parent.AddChild(child);
    }

    method Attach(parent: VNode, child: VNode)
      requires Valid() && parent in tree && parent.vType == Directory && child !in tree
      requires child.kids == [] && child.KidsLinked() && child.vType != MountPoint
      requires child.ops.touch || child.ops.mkdir ==> child.vType == Directory
      modifies this`tree, parent`firstChild, parent`lastChild, parent`kids, parent.kids`nextSibling
      modifies child`parent, child`prevSibling, child`nextSibling
      ensures Valid() <==> old(Kid(tree, parent, child.name)) == null
      ensures tree == Grown(old(tree), parent, child.name, child) && child.parent == parent && parent.kids == old(parent.kids) + [child]
    {
      hide Valid, Family, Distinct, Closed, KindOk, Grown;
      LinkUnder(parent, child);
      ghost var twin := Kid(tree, parent, child.name);
      tree := Grown(tree, parent, child.name, child);
      if twin == null { Attached(parent); } else { GrownAt(old(tree), parent, child.name, child); Twins(parent); }
    }

    /** With two children of one name no tree describes the directory. */
    twostate lemma Twins(parent: VNode)
      requires old(Valid()) && old(parent in tree) && parent.kids != [] && parent in tree
      requires var child := parent.kids[|parent.kids| - 1];
        child !in old(tree) && Kid(old(tree), parent, child.name) != null && parent.kids == old(parent.kids) + [child]
      ensures !Valid()
    {
      var child := parent.kids[|parent.kids| - 1];
      var twin: VNode := Kid(old(tree), parent, child.name);
      assert old(Family(parent));
      assert old(tree)[parent][child.name] == twin;
      var i :| 0 <= i < |old(parent.kids)| && old(parent.kids)[i] == twin;
      assert parent.kids[i] == twin;
      ghost var linked := Family(parent);
    }

    /** `parent` has a new last child. */
    twostate lemma Attached(parent: VNode)
      requires old(Valid()) && old(parent in tree) && parent.vType == Directory && parent.kids != []
      requires var child := parent.kids[|parent.kids| - 1];
        && child !in old(tree) && Kid(old(tree), parent, child.name) == null && tree == Grown(old(tree), parent, child.name, child)
        && parent.kids == old(parent.kids) + [child] && parent.KidsLinked() && child.parent == parent
        && child.kids == [] && child.KidsLinked() && child.vType != MountPoint
        && (child.ops.touch || child.ops.mkdir ==> child.vType == Directory)
      requires forall n {:trigger n in old(tree)} :: n in old(tree) ==> n.parent == old(n.parent) && n.vType == old(n.vType)
      requires forall n {:trigger n in old(tree)} :: n in old(tree) && n != parent ==> n.kids == old(n.kids) && n.KidsLinked()
      ensures Valid()
    {
      hide Family, KindOk, Closed, NotHeld, Grown, Distinct, VNode.KidsLinked;
      var child := parent.kids[|parent.kids| - 1];
      FamiliesHeld();
      GrownClosed(old(tree), parent, child.name, child, root);
      GrownAt(old(tree), parent, child.name, child);
      forall n | n in old(tree) && n != parent ensures Family(n) && KindOk(n) && forall i :: 0 <= i < |n.kids| ==> n.kids[i] in tree {
        FamilyKept(n);
      }
      FamilyGrown(parent);
    }

    twostate lemma FamiliesHeld()
      requires old(Valid())
      ensures old(Closed(tree)) && old(root in tree)
      ensures forall n {:trigger old(n in tree)} :: old(n in tree) ==> old(Family(n)) && old(KindOk(n))
      ensures NotHeld(old(tree), root)
    {
    }

    twostate lemma FamilyKept(n: VNode)
      requires old(n in tree) && old(Family(n)) && old(KindOk(n)) && old(Closed(tree)) && n in tree && tree[n] == old(tree)[n]
      requires n.kids == old(n.kids) && n.KidsLinked() && n.vType == old(n.vType)
      requires forall m {:trigger m in old(tree)} :: m in old(tree) ==> m.parent == old(m.parent)
      ensures Family(n) && KindOk(n)
      ensures forall i {:trigger n.kids[i]} :: 0 <= i < |n.kids| ==> n.kids[i] in old(tree)
    {
    }

    twostate lemma FamilyGrown(parent: VNode)
      requires old(parent in tree) && old(Family(parent)) && old(Closed(tree)) && parent.vType == Directory && parent.kids != []
      requires var child := parent.kids[|parent.kids| - 1];
        && child !in old(tree) && Kid(old(tree), parent, child.name) == null && tree == Grown(old(tree), parent, child.name, child)
        && parent.kids == old(parent.kids) + [child] && parent.KidsLinked() && child.parent == parent
        && child.kids == [] && child.KidsLinked() && child.vType != MountPoint
        && (child.ops.touch || child.ops.mkdir ==> child.vType == Directory)
      requires forall m {:trigger m in old(tree)} :: m in old(tree) ==> m.parent == old(m.parent)
      ensures var child := parent.kids[|parent.kids| - 1];
        Family(parent) && KindOk(parent) && Family(child) && KindOk(child)
      ensures forall i {:trigger parent.kids[i]} :: 0 <= i < |parent.kids| ==> parent.kids[i] in tree
    {
      hide VNode.KidsLinked;
    }

    method UnlinkFrom(parent: VNode, child: VNode)
      requires Valid() && parent in tree && child in parent.kids
      modifies parent`firstChild, parent`lastChild, parent`kids, parent.kids`prevSibling, parent.kids`nextSibling
      ensures forall k {:trigger k in parent.kids} {:trigger k in old(parent.kids)} :: k in parent.kids <==> k in old(parent.kids) && k != child
      ensures forall n {:trigger n in tree} :: n in tree ==> n.KidsLinked()
    {
      hide Valid, Family, Distinct, Closed, VNode.KidsLinked;
      OtherFamilies(parent);
      DropKid(parent, child);
    }

    static method DropKid(parent: VNode, child: VNode)
      requires parent.KidsLinked() && child in parent.kids
      modifies parent`firstChild, parent`lastChild, parent`kids, parent.kids`prevSibling, parent.kids`nextSibling
      ensures parent.KidsLinked()
      ensures forall k {:trigger k in parent.kids} {:trigger k in old(parent.kids)} :: k in parent.kids <==> k in old(parent.kids) && k != child
    {
      ghost var i :| 0 <= i < |parent.kids| && parent.kids[i] == child;
      DistinctRemovedAt(parent.kids, i);
      parent.RemoveChild(child, i);
    }

    method Detach(child: VNode)
      requires Valid() && child in tree && child != root && tree[child] == map[] && child.parent in tree
      requires child.parent != child && Kid(tree, child.parent, child.name) == child
      modifies this`tree, child.parent`firstChild, child.parent`lastChild, child.parent`kids
      modifies child.parent.kids`prevSibling, child.parent.kids`nextSibling
      ensures Valid() && tree == Shrunk(old(tree), old(child.parent), child.name, child)
    {
      hide Valid, Family, Distinct, Closed, KindOk, Shrunk;
      HeldByParent(child);
      UnlinkFrom(child.parent, child);
      tree := Shrunk(tree, child.parent, child.name, child);
      Detached(child);
    }

    lemma HeldByParent(child: VNode)
      requires Valid() && child.parent in tree && Kid(tree, child.parent, child.name) == child
      ensures child in child.parent.kids
    {
      assert Family(child.parent);
    }

    twostate lemma Detached(child: VNode)
      requires old(Valid()) && old(child in tree) && child != root && old(tree)[child] == map[] && child.parent != child
      requires child.parent != null && child.parent == old(child.parent) && old(child.parent in tree) && Kid(old(tree), child.parent, child.name) == child
      requires tree == Shrunk(old(tree), child.parent, child.name, child)
      requires forall k {:trigger k in child.parent.kids} {:trigger k in old(child.parent.kids)} ::
        k in child.parent.kids <==> k in old(child.parent.kids) && k != child
      requires forall n {:trigger n in old(tree)} :: n in old(tree) ==> n.parent == old(n.parent) && n.vType == old(n.vType) && n.KidsLinked()
      requires forall n {:trigger n in old(tree)} :: n in old(tree) && n != child.parent ==> n.kids == old(n.kids)
      ensures Valid()
    {
      hide Family, KindOk, Closed, NotHeld, Shrunk, Distinct, VNode.KidsLinked;
      FamiliesHeld();
      ShrunkClosed(old(tree), child.parent, child.name, child, root);
      ShrunkAt(old(tree), child.parent, child.name, child);
      FamilyShrunk(child);
      forall n | n in tree && n != child.parent ensures Family(n) && KindOk(n) {
        FamilyKept(n);
      }
      NobodyElseHolds(child);
    }

    /** Only its parent had the removed node. */
    twostate lemma NobodyElseHolds(child: VNode)
      requires old(Valid()) && child.parent != null && child.parent == old(child.parent)
      requires forall n {:trigger n in old(tree)} :: n in old(tree) ==> n.parent == old(n.parent)
      requires forall n {:trigger n in old(tree)} :: n in old(tree) && n != child.parent ==> n.kids == old(n.kids)
      ensures forall n, i {:trigger n.kids[i], n in old(tree)} :: n in old(tree) && n != child.parent && 0 <= i < |n.kids| ==>
        n.kids[i] in old(tree) && n.kids[i] != child
    {
      forall n, i | n in old(tree) && n != child.parent && 0 <= i < |n.kids| ensures n.kids[i] in old(tree) && n.kids[i] != child {
        assert old(Family(n));
      }
    }

    twostate lemma FamilyShrunk(child: VNode)
      requires child.parent != null && child.parent == old(child.parent) && old(child.parent in tree) && child.parent in tree
      requires old(Family(child.parent)) && old(KindOk(child.parent)) && old(Closed(tree)) && Kid(old(tree), child.parent, child.name) == child
      requires tree[child.parent] == old(tree)[child.parent] - {child.name} && child.parent.KidsLinked()
      requires forall k {:trigger k in child.parent.kids} {:trigger k in old(child.parent.kids)} ::
        k in child.parent.kids <==> k in old(child.parent.kids) && k != child
      requires forall n {:trigger n in old(tree)} :: n in old(tree) ==> n.parent == old(n.parent) && n.vType == old(n.vType)
      ensures Family(child.parent) && KindOk(child.parent)
      ensures forall i {:trigger child.parent.kids[i]} :: 0 <= i < |child.parent.kids| ==> child.parent.kids[i] in old(tree) && child.parent.kids[i] != child
    {
      hide VNode.KidsLinked;
      assert forall i {:trigger child.parent.kids[i]} :: 0 <= i < |child.parent.kids| ==> child.parent.kids[i] in child.parent.kids;
    }

    // ------------------------------------------------------------------ system calls

    /** `vfs_touch` and `vfs_mkdir`, with what ramfs does for them. */
    method VfsCreate(parent: VNode, name: string, directory: bool) returns (r: Errno, node: VNode?)
      requires Valid() && parent in tree
      modifies this`tree, parent`firstChild, parent`lastChild, parent`kids, parent.kids`nextSibling
      ensures (r == OK || r == EACCES) && (Valid() <==> r != OK || old(Kid(tree, parent, name)) == null)
      ensures r == OK <==> if directory then parent.ops.mkdir else parent.ops.touch
      ensures r == EACCES ==> tree == old(tree)
      ensures r == OK ==> fresh(node) && node.name == name && node.vType == (if directory then Directory else File) && node.activeFds == 0
      ensures r == OK ==> node.ops == (if directory then RAMFS_DIR_OPS else RAMFS_FILE_OPS)
      ensures r == OK ==> tree == Grown(old(tree), parent, name, node) && node.parent == parent && parent.kids == old(parent.kids) + [node]
    {
      node := null;
      if directory {
        if !parent.ops.mkdir {
          return EACCES, null;
        }
        node := new VNode(name, Directory, RAMFS_DIR_OPS);
      } else {
        if !parent.ops.touch {
          return EACCES, null;
        }
        node := new VNode(name, File, RAMFS_FILE_OPS);
      }
      assert KindOk(parent);
      Attach(parent, node);
      r := OK;
    }

    /** A lookup that misses only the last name went through no empty name. */
    lemma {:induction false} MissedLast(t: Tree, n: VNode, names: seq<string>)
      requires |names| > 0 && Resolve(t, n, names).node == null && Resolve(t, n, names).parent != null
      ensures NoEmptyName(names)
      ensures Kid(t, Resolve(t, n, names).parent, Last(names)) == null
      decreases |names|
    {
      if |names| > 1 {
        MissedLast(t, Kid(t, n, names[0]), names[1..]);
        assert forall k :: 0 < k < |names| ==> names[k] == names[1..][k - 1];
      }
    }

    ghost predicate Absolute(path: string) { path != "" && path[0] == '/' }

    /** What a lookup of the path finds in the tree as it is. */
    ghost function Lookup(path: string): Found
      reads this`tree
    {
      if Absolute(path) then Resolve(tree, root, Names(path, 1)) else Found(null, null)
    }

    /** The lookup missed the last name only: the case in which a node can be created. */
    ghost predicate Missed(path: string)
      reads this`tree
    {
      Lookup(path).node == null && Lookup(path).parent != null
    }

    /** The last component, with a slash behind it, fits the buffer for the file name. */
    ghost predicate Fits(path: string) {
      path != "" ==> |path| - LastNameStart(path, |path|) < MAX_FILENAME
    }

    lemma {:induction false} MissedName(path: string)
      requires Missed(path)
      ensures |path| > 1 && NoEmptyName(Names(path, 1)) && Kid(tree, Lookup(path).parent, Last(Names(path, 1))) == null
    {
      hide Names, Resolve;
      MissedLast(tree, root, Names(path, 1));
      NameBehindSlash(path);
    }

    lemma {:induction false} NameBehindSlash(path: string)
      requires path != "" && NoEmptyName(Names(path, 1))
      ensures |path| > 1
    {
      assert Names(path, 1)[0] != "";
    }

    /** The directory into which a path that was not found would be created. */
    ghost function Target(path: string): VNode
      requires Lookup(path).parent != null
      reads this`tree
    {
      Lookup(path).parent
    }

    /** `do_mkdir`: which error it gives, and where it creates the directory: where the lookup
        stopped, under the last component of the path.  The tree stays a tree if and only if
        nothing had that name there, and the path finds the directory if and only if it is the
        name that was looked up. */
    method DoMkdir(path: string) returns (r: Errno, ghost dir: VNode?)
      requires Valid() && CString(path) && NoOverrun(path) && (Missed(path) ==> Fits(path))
      modifies this`tree, tree.Keys`firstChild, tree.Keys`lastChild, tree.Keys`kids, tree.Keys`nextSibling
      ensures r == old(
        var f := Lookup(path);
        if f.node != null then EEXIST
        else if f.parent == null then EINVAL
        else if f.parent.vType != Directory then ENOTDIR
        else if !f.parent.ops.mkdir then EACCES
        else OK)
      ensures r != OK ==> Valid() && tree == old(tree)
      ensures r == OK ==> |path| > 1 && dir != null && fresh(dir) && dir.vType == Directory && dir.name == FileName(path) && dir.parent == old(Target(path))
      ensures r == OK ==> dir.ops.mkdir && dir.ops.touch && dir.ops.rmdir && dir.ops.open && !dir.ops.remove
      ensures r == OK ==> old(Target(path)) in old(tree) && tree == Grown(old(tree), old(Target(path)), FileName(path), dir)
      ensures r == OK ==> (Valid() <==> old(Kid(tree, Target(path), FileName(path))) == null)
      ensures r == OK && Valid() ==> Lookup(path) == Found(if FileName(path) == Last(Names(path, 1)) then dir else null, old(Target(path)))
    {
      hide Resolve, Names, Grown, FileName;
      dir := null;
      var node, parent := NameiPathToVfsNode(null, path);
      if node != null {
        return EEXIST, null;
      }
      if parent == null {
        return EINVAL, null;
      }
      NotMountPoints();
      if parent.vType != Directory && parent.vType != MountPoint {
        return ENOTDIR, null;
      }
      MissedName(path);
      KidsKnown(parent);
      var name := NameiPathToFilename(path);
      ghost var tree0 := tree;
      r, node := VfsCreate(parent, name, true);
      if r == OK && Kid(tree0, parent, name) == null {
        NowFound(tree0, path, parent, node);
      }
      dir := node;
    }

    lemma NotMountPoints()
      requires Valid()
      ensures forall n {:trigger n.vType} :: n in tree ==> n.vType != MountPoint
    {
      forall n | n in tree ensures n.vType != MountPoint {
        assert KindOk(n);
      }
    }

    lemma KidsKnown(parent: VNode)
      requires Valid() && parent in tree
      ensures forall i {:trigger parent.kids[i]} :: 0 <= i < |parent.kids| ==> parent.kids[i] in tree
    {
    }

    /** The path that missed its last name finds the node created where it stopped if and only
        if the node has that name. */
    lemma {:induction false} NowFound(t: Tree, path: string, parent: VNode, node: VNode)
      requires Absolute(path) && Closed(t) && root in t && node !in t && parent in t && Kid(t, parent, node.name) == null
      requires Resolve(t, root, Names(path, 1)) == Found(null, parent)
      requires tree == Grown(t, parent, node.name, node)
      ensures Lookup(path) == Found(if node.name == Last(Names(path, 1)) then node else null, parent)
    {
      hide Names, Grown;
      var names := Names(path, 1);
      MissedLast(t, root, names);
      ResolveIsWalk(t, root, names);
      ResolveIsWalk(tree, root, names);
      WalkInGrown(t, parent, node.name, node, root, names);
      WalkInit(t, root, names);
      if |names| > 1 {
        WalkInGrown(t, parent, node.name, node, root, Init(names));
        WalkInit(t, root, Init(names));
      }
    }

    /** `vfs_remove` and `vfs_rmdir`, with what ramfs does for them. */
    method VfsDelete(node: VNode, directory: bool) returns (r: Errno)
      requires Valid() && node in tree && tree[node] == map[]
      requires (if directory then node.ops.rmdir else node.ops.remove) ==>
        node != root && node.parent in tree && node.parent != node && Kid(tree, node.parent, node.name) == node
      modifies this`tree, tree.Keys`firstChild, tree.Keys`lastChild, tree.Keys`kids, tree.Keys`prevSibling, tree.Keys`nextSibling
      ensures Valid() && r == if (if directory then node.ops.rmdir else node.ops.remove) then OK else EACCES
      ensures r != OK ==> tree == old(tree)
      ensures r == OK ==> node.parent in old(tree) && tree == Shrunk(old(tree), node.parent, node.name, node)
    {
      if if directory then node.ops.rmdir else node.ops.remove {
        KidsKnown(node.parent);
        Detach(node);
        r := OK;
      } else {
        r := EACCES;
      }
    }

    /** A node that was found below the root hangs where it was found. */
    lemma {:induction false} FoundBelow(n: VNode, names: seq<string>)
      requires Valid() && n in tree && |names| > 0 && Resolve(tree, n, names).node != null && Resolve(tree, n, names).node != n
      ensures var x := Resolve(tree, n, names).node;
        x in tree && x.parent in tree && Kid(tree, x.parent, x.name) == x && (x != root ==> x.parent != x) && x != root
      decreases |names|
    {
      var k := Kid(tree, n, names[0]);
      assert Family(n);
      if names[0] != "" && k != null {
        HangsBelow(n, names[0]);
        if |names| > 1 && Resolve(tree, k, names[1..]).node != k {
          FoundBelow(k, names[1..]);
        }
      }
    }

    lemma HangsBelow(n: VNode, name: string)
      requires Valid() && n in tree && Kid(tree, n, name) != null
      ensures var k := Kid(tree, n, name);
        k in tree && k.name == name && k.parent == n && k != root
    {
      assert Family(n);
    }

    /** What a successful removal leaves: the node is gone, nothing else is. */
    twostate predicate Removed(node: VNode)
      requires old(allocated(node))
      reads this`tree, node
    {
      && node in old(tree) && node.parent in old(tree) && node != node.parent && node != root
      && tree == Shrunk(old(tree), node.parent, node.name, node)
    }

    /** `do_rmdir` */
    method DoRmdir(path: string) returns (r: Errno)
      requires Valid() && CString(path) && NoOverrun(path)
      modifies this`tree, tree.Keys`firstChild, tree.Keys`lastChild, tree.Keys`kids, tree.Keys`prevSibling, tree.Keys`nextSibling
      ensures Valid()
      ensures r == old(
        var n := Lookup(path).node;
        if n == null then ENOENT
        else if n.vType != Directory then ENOTDIR
        else if n !in tree || tree[n] != map[] then EEXIST
        else if !n.ops.rmdir then EACCES
        else OK)
      ensures r != OK ==> tree == old(tree)
      ensures r == OK ==> Lookup(path).node == null && Removed(old(Lookup(path).node))
    {
      hide Resolve, Names, Shrunk;
      var node, parent := NameiPathToVfsNode(null, path);
      if node == null {
        return ENOENT;
      }
      NotMountPoints();
      if node.vType == MountPoint {
        return EBUSY;
      }
      if node.vType != Directory {
        return ENOTDIR;
      }
      EmptyMeansNoChild(node);
      if node.firstChild != null {
        return EEXIST;
      }
      if node != root {
        FoundBelow(root, Names(path, 1));
        NowLost(path, node);
      }
      r := VfsDelete(node, true);
    }

    lemma EmptyMeansNoChild(node: VNode)
      requires Valid() && node in tree
      ensures node.firstChild == null <==> tree[node] == map[]
    {
      assert Family(node);
      if node.kids != [] { assert node.kids[0].name in tree[node]; }
      if tree[node] != map[] {
        var name :| name in tree[node];
        assert tree[node][name] in node.kids;
      }
    }

    /** No path that found the node will find it after it is removed. */
    lemma {:induction false} NowLost(path: string, node: VNode)
      requires Valid() && Absolute(path) && Lookup(path).node == node && node in tree && node != root && tree[node] == map[]
      requires node.parent in tree && node.parent != node && Kid(tree, node.parent, node.name) == node
      ensures Resolve(Shrunk(tree, node.parent, node.name, node), root, Names(path, 1)).node == null
    {
      var names, t' := Effective(Names(path, 1)), Shrunk(tree, node.parent, node.name, node);
      ResolveStopsAtEmpty(tree, root, Names(path, 1));
      ResolveStopsAtEmpty(t', root, Names(path, 1));
      WalkInShrunk(tree, node.parent, node.name, node, root, names);
    }

    /** `do_remove` */
    method DoRemove(path: string) returns (r: Errno)
      requires Valid() && CString(path) && NoOverrun(path)
      modifies this`tree, tree.Keys`firstChild, tree.Keys`lastChild, tree.Keys`kids, tree.Keys`prevSibling, tree.Keys`nextSibling
      ensures Valid()
      ensures r == old(
        var n := Lookup(path).node;
        if n == null then ENOENT
        else if n.vType == Directory then EISDIR
        else if n.activeFds > 0 then EBUSY
        else if !n.ops.remove then EACCES
        else OK)
      ensures r != OK ==> tree == old(tree)
      ensures r == OK ==> Lookup(path).node == null && Removed(old(Lookup(path).node))
    {
      hide Resolve, Names, Shrunk;
      var node, parent := NameiPathToVfsNode(null, path);
      if node == null {
        return ENOENT;
      }
      if node.vType == Directory {
        return EISDIR;
      }
      if node.activeFds > 0 {
        return EBUSY;
      }
      FilesHoldNothing(node);
      FoundBelow(root, Names(path, 1));
      NowLost(path, node);
      r := VfsDelete(node, false);
    }

    lemma FilesHoldNothing(node: VNode)
      requires Valid() && node in tree && node.vType != Directory
      ensures tree[node] == map[] && node != root
    {
      assert KindOk(node);
    }

    /** `vfs_open` */
    method VfsOpen(node: VNode) returns (r: Errno)
      modifies node`activeFds
      ensures r == if node.ops.open then OK else EACCES
      ensures node.activeFds == old(node.activeFds) + if r == OK then 1 else 0
    {
      if node.ops.open {
        node.activeFds := node.activeFds + 1;
        r := OK;
      } else {
        r := EACCES;
      }
    }

    /** The part of `do_open` that finds or creates the file, which it does as `do_mkdir`. */
    method DoOpen(path: string, create: bool) returns (r: Errno, file: VNode?)
      requires Valid() && CString(path) && NoOverrun(path) && (Missed(path) && create ==> Fits(path))
      modifies this`tree, tree.Keys`firstChild, tree.Keys`lastChild, tree.Keys`kids, tree.Keys`nextSibling, tree.Keys`activeFds
      ensures r == old(
        var f := Lookup(path);
        if f.node != null then (if f.node.ops.open then OK else EACCES)
        else if f.parent == null || !create then ENOENT
        else if !f.parent.ops.touch then EACCES
        else OK)
      ensures r != OK ==> Valid() && tree == old(tree)
      ensures r == OK ==> file != null
      ensures r == OK && !old(Missed(path)) ==>
        Valid() && tree == old(tree) && file == old(Lookup(path).node) && file.activeFds == old(Lookup(path).node.activeFds) + 1
      ensures r == OK && old(Missed(path)) ==>
        && |path| > 1 && fresh(file) && file.vType == File && file.activeFds == 1 && file.name == FileName(path) && file.parent == old(Target(path))
        && file.ops.open && file.ops.remove && !file.ops.mkdir && !file.ops.touch && !file.ops.rmdir
        && old(Target(path)) in old(tree) && tree == Grown(old(tree), old(Target(path)), FileName(path), file)
        && (Valid() <==> old(Kid(tree, Target(path), FileName(path))) == null)
      ensures r == OK && old(Missed(path)) && Valid() ==>
        Lookup(path) == Found(if FileName(path) == Last(Names(path, 1)) then file else null, old(Target(path)))
    {
      hide Resolve, Names, Grown, FileName;
      var node, parent := NameiPathToVfsNode(null, path);
      if node == null {
        if parent == null || !create {
          return ENOENT, null;
        }
        MissedName(path);
        KidsKnown(parent);
        var name := NameiPathToFilename(path);
        ghost var tree0 := tree;
        r, node := VfsCreate(parent, name, false);
        if r != OK {
          return r, null;
        }
        if Kid(tree0, parent, name) == null { NowFound(tree0, path, parent, node); }
      }
      file := node;
      r := VfsOpen(file);
    }

    /** A directory just made can be removed again by the same path, and the tree is what it was,
        if it was made under the name that was looked up. */
    method MkdirRmdir(path: string) returns (made: Errno, gone: Errno)
      requires Valid() && CString(path) && NoOverrun(path) && (Missed(path) ==> Fits(path))
      requires Absolute(path) ==> FileName(path) == Last(Names(path, 1))
      modifies this`tree, tree.Keys`firstChild, tree.Keys`lastChild, tree.Keys`kids, tree.Keys`nextSibling, tree.Keys`prevSibling
      ensures Valid() && tree == old(tree)
      ensures made == OK ==> gone == OK
    {
      hide Resolve, Names, FileName;
      ghost var t := tree;
      ghost var dir: VNode?;
      if Missed(path) { MissedName(path); }
      made, dir := DoMkdir(path);
      gone := ENOENT;
      if made == OK {
        gone := DoRmdir(path);
        ShrunkGrown(t, dir.parent, dir.name, dir);
      }
    }

    lemma ShrunkGrown(t: Tree, p: VNode, name: string, c: VNode)
      requires p in t && c !in t && Kid(t, p, name) == null
      ensures Shrunk(Grown(t, p, name, c), p, name, c) == t
    {
      assert t[p][name := c] - {name} == t[p];
      assert Shrunk(Grown(t, p, name, c), p, name, c).Keys == t.Keys;
    }
  }
}
