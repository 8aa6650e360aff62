/** The socket generation of `EquipmentSkeleton.createSocketNodes`, stated as
    functions of the bone tree: the depth-first walk from the root, the name
    list each bone receives, the sockets and bone-node entries the walk
    produces, and the skeleton slots that then get an equipment slot. */
module Sockets {
  import opened Engine

  /** One step of the walk: a bone and the name list built for it (the names
      of the bones from the root down to it). */
  datatype Visit = Visit(bone: Bone, names: seq<string>)

  /** Number of bones in the tree below and including `b`. */
  function BoneCount(b: Bone): nat
    decreases b, |b.children| + 1
  {
    1 + ChildBoneCount(b, 0)
  }

  function ChildBoneCount(b: Bone, i: nat): nat
    requires i <= |b.children|
    decreases b, |b.children| - i
  {
    if i == |b.children| then 0 else BoneCount(b.children[i]) + ChildBoneCount(b, i + 1)
  }

  /** `cascadeSearch(b, prefix)`: `b` first, with `prefix` plus its own name,
      then each child in order with a copy of that list. */
  function Visits(b: Bone, prefix: seq<string>): seq<Visit>
    decreases b, |b.children| + 1
  {
    var names := prefix + [b.name];
    [Visit(b, names)] + ChildVisits(b, 0, names)
  }

  /** The walks of the children `i..` of `b`, each given `names`. */
  function ChildVisits(b: Bone, i: nat, names: seq<string>): seq<Visit>
    requires i <= |b.children|
    decreases b, |b.children| - i
  {
    if i == |b.children| then [] else Visits(b.children[i], names) + ChildVisits(b, i + 1, names)
  }

  /** The whole walk, started at the root with no name list. */
  function Walk(root: Bone): seq<Visit> {
    Visits(root, [])
  }

  /** `parts.join(sep)` */
  function Join(parts: seq<string>, sep: char): string {
    if |parts| == 0 then ""
    else if |parts| == 1 then parts[0]
    else parts[0] + [sep] + Join(parts[1..], sep)
  }

  /** The node created for a non-root bone, named `Socket_<names joined by _>`. */
  function SocketNode(v: Visit): SceneNode {
    SceneNode("Socket_" + Join(v.names, '_'), v.bone.index)
  }

  /** The socket created for a non-root bone: its path is the name list joined by '/'. */
  function SocketFor(v: Visit): Socket {
    Socket(Join(v.names, '/'), SocketNode(v))
  }

  /** What the walk writes into `_boneNodes` for a visit: null for the root. */
  function NodeEntry(v: Visit, root: Bone): Option<SceneNode> {
    if v.bone != root then Some(SocketNode(v)) else None
  }

  /** The sockets pushed while visiting `vs`: one per visit of a non-root bone. */
  function SocketsOf(vs: seq<Visit>, root: Bone): seq<Socket> {
    if vs == [] then []
    else (if vs[0].bone != root then [SocketFor(vs[0])] else []) + SocketsOf(vs[1..], root)
  }

  /** `_boneNodes[indexOf(bone)] = node` for each visit in turn. */
  function BoneNodeEntries(m: map<nat, Option<SceneNode>>, vs: seq<Visit>, root: Bone): map<nat, Option<SceneNode>>
    decreases |vs|
  {
    if vs == [] then m
    else BoneNodeEntries(m[vs[0].bone.index := NodeEntry(vs[0], root)], vs[1..], root)
  }

  /** `boneNodesMap.set(bone, node)` for each visit of a non-root bone. */
  function SocketNodesOf(m: map<nat, SceneNode>, vs: seq<Visit>, root: Bone): map<nat, SceneNode>
    decreases |vs|
  {
    if vs == [] then m
    else SocketNodesOf(if vs[0].bone != root then m[vs[0].bone.index := SocketNode(vs[0])] else m, vs[1..], root)
  }

  /** `q` lists the names of the bones on the way from `b` down to `t`. */
  ghost predicate PathIn(b: Bone, q: seq<string>, t: Bone)
    decreases b
  {
    && |q| >= 1
    && q[0] == b.name
    && if |q| == 1 then t == b
       else exists j :: 0 <= j < |b.children| && PathIn(b.children[j], q[1..], t)
  }

  /** Every bone name of the tree avoids the character `c`. */
  ghost predicate NamesAvoid(b: Bone, c: char)
    decreases b
  {
    c !in b.name && forall j :: 0 <= j < |b.children| ==> NamesAvoid(b.children[j], c)
  }

  /** No name of the list holds the character `c`. */
  ghost predicate ListAvoids(names: seq<string>, c: char) {
    forall k :: 0 <= k < |names| ==> c !in names[k]
  }

  /** The bones of the walk carry pairwise different names. */
  ghost predicate DistinctNames(vs: seq<Visit>) {
    forall i, j :: 0 <= i < j < |vs| ==> vs[i].bone.name != vs[j].bone.name
  }

  /** The bones of the walk carry pairwise different indices into the bone list. */
  ghost predicate DistinctIndices(vs: seq<Visit>) {
    forall i, j :: 0 <= i < j < |vs| ==> vs[i].bone.index != vs[j].bone.index
  }

  // ---------------------------------------------------------------------------
  // The walk visits each bone once, the root first.

  /** The walk from `b` has one visit per bone of the tree, starts with `b`
      itself, and every later visit is of a strictly smaller subtree. */
  lemma {:induction false} VisitsShape(b: Bone, prefix: seq<string>)
    ensures var vs := Visits(b, prefix);
            && |vs| == BoneCount(b)
            && vs[0] == Visit(b, prefix + [b.name])
            && forall k :: 1 <= k < |vs| ==> BoneCount(vs[k].bone) < BoneCount(b)
    decreases b, |b.children| + 1
  {
    var names := prefix + [b.name];
    var cv := ChildVisits(b, 0, names);
    ChildVisitsShape(b, 0, names);
    var vs := Visits(b, prefix);
    forall k | 1 <= k < |vs|
      ensures BoneCount(vs[k].bone) < BoneCount(b)
    {
      assert vs[k] == cv[k - 1];
      assert vs[k] in cv;
    }
  }

  lemma {:induction false} ChildVisitsShape(b: Bone, i: nat, names: seq<string>)
    requires i <= |b.children|
    ensures var cv := ChildVisits(b, i, names);
            && |cv| == ChildBoneCount(b, i)
            && forall v :: v in cv ==> BoneCount(v.bone) <= ChildBoneCount(b, i)
    decreases b, |b.children| - i
  {
    if i < |b.children| {
      var c := b.children[i];
      VisitsShape(c, names);
      ChildVisitsShape(b, i + 1, names);
      var vs := Visits(c, names);
      assert BoneCount(vs[0].bone) == BoneCount(c);
      forall v | v in vs
        ensures BoneCount(v.bone) <= BoneCount(c)
      {
        var k :| 0 <= k < |vs| && vs[k] == v;
      }
    }
  }

  /** One socket per non-root bone: the sockets are exactly those of the
      visits after the root's, in walk order. */
  lemma SocketsFollowWalk(root: Bone)
    ensures var vs := Walk(root);
            var sockets := SocketsOf(vs, root);
            && |vs| == BoneCount(root)
            && |sockets| == |vs| - 1
            && forall k :: 0 <= k < |sockets| ==> sockets[k] == SocketFor(vs[k + 1])
  {
    var vs := Walk(root);
    VisitsShape(root, []);
    assert SocketsOf(vs, root) == SocketsOf(vs[1..], root);
    SocketsOfNonRoot(vs[1..], root);
  }

  /** Visits of bones other than the root each yield their socket. */
  lemma {:induction false} SocketsOfNonRoot(vs: seq<Visit>, root: Bone)
    requires forall k :: 0 <= k < |vs| ==> BoneCount(vs[k].bone) < BoneCount(root)
    ensures var sockets := SocketsOf(vs, root);
            |sockets| == |vs| && forall k :: 0 <= k < |vs| ==> sockets[k] == SocketFor(vs[k])
  {
    if vs != [] {
      SocketsOfNonRoot(vs[1..], root);
    }
  }

  // ---------------------------------------------------------------------------
  // Each visit carries the path from the root to its bone.

  /** A visit of one child's walk is a visit of the walks of children `i..`
      when that child is among them. */
  lemma {:induction false} ChildVisitsInclude(b: Bone, i: nat, names: seq<string>, j: nat, v: Visit)
    requires i <= j < |b.children|
    requires v in Visits(b.children[j], names)
    ensures v in ChildVisits(b, i, names)
    decreases |b.children| - i
  {
    if i < j {
      ChildVisitsInclude(b, i + 1, names, j, v);
    }
  }

  /** Every bone reachable from `b` along the names `q` is visited by the
      walk from `b`, with the prefix followed by exactly those names. */
  lemma {:induction false} VisitsCover(b: Bone, prefix: seq<string>, q: seq<string>, t: Bone)
    requires PathIn(b, q, t)
    ensures Visit(t, prefix + q) in Visits(b, prefix)
    decreases b
  {
    var names := prefix + [b.name];
    if |q| == 1 {
      assert prefix + q == names;
      assert Visits(b, prefix)[0] == Visit(b, names);
    } else {
      var j :| 0 <= j < |b.children| && PathIn(b.children[j], q[1..], t);
      VisitsCover(b.children[j], names, q[1..], t);
      assert names + q[1..] == prefix + q by {
        assert q == [q[0]] + q[1..];
      }
      ChildVisitsInclude(b, 0, names, j, Visit(t, prefix + q));
    }
  }

  /** The converse of `VisitPaths` from the root: every bone reachable from
      the root is visited, with its root-to-bone name list. */
  lemma WalkCovers(root: Bone)
    ensures forall q, t :: PathIn(root, q, t) ==> Visit(t, q) in Walk(root)
  {
    forall q, t | PathIn(root, q, t)
      ensures Visit(t, q) in Walk(root)
    {
      VisitsCover(root, [], q, t);
      assert [] + q == q;
    }
  }

  /** A visit of a non-root bone contributes its socket. */
  lemma {:induction false} SocketsOfInclude(vs: seq<Visit>, root: Bone, v: Visit)
    requires v in vs && v.bone != root
    ensures SocketFor(v) in SocketsOf(vs, root)
    decreases |vs|
  {
    if vs[0] != v {
      assert v in vs[1..];
      SocketsOfInclude(vs[1..], root, v);
    }
  }

  /** Every non-root bone reachable from the root gets a socket whose path
      is its root-to-bone name list joined by '/'. */
  lemma EveryBoneGetsSocket(root: Bone)
    ensures forall q, t :: PathIn(root, q, t) && t != root ==>
              Socket(Join(q, '/'), SocketNode(Visit(t, q))) in SocketsOf(Walk(root), root)
  {
    forall q, t | PathIn(root, q, t) && t != root
      ensures Socket(Join(q, '/'), SocketNode(Visit(t, q))) in SocketsOf(Walk(root), root)
    {
      WalkCovers(root);
      SocketsOfInclude(Walk(root), root, Visit(t, q));
    }
  }

  /** Every name list built by the walk from `b` under `prefix` is `prefix`
      followed by the names on the way from `b` down to the visited bone. */
  lemma {:induction false} VisitPaths(b: Bone, prefix: seq<string>)
    ensures forall v :: v in Visits(b, prefix) ==>
              && |prefix| < |v.names|
              && v.names[..|prefix|] == prefix
              && PathIn(b, v.names[|prefix|..], v.bone)
    decreases b, |b.children| + 1
  {
    var names := prefix + [b.name];
    ChildVisitPaths(b, 0, names);
    forall v | v in Visits(b, prefix)
      ensures && |prefix| < |v.names|
              && v.names[..|prefix|] == prefix
              && PathIn(b, v.names[|prefix|..], v.bone)
    {
      if v == Visit(b, names) {
        assert v.names[|prefix|..] == [b.name];
      } else {
        assert v in ChildVisits(b, 0, names);
        var j :| 0 <= j < |b.children| && PathIn(b.children[j], v.names[|names|..], v.bone);
        var q := v.names[|prefix|..];
        assert v.names[..|names|] == names;
        assert q[0] == b.name;
        assert q[1..] == v.names[|names|..];
      }
    }
  }

  lemma {:induction false} ChildVisitPaths(b: Bone, i: nat, names: seq<string>)
    requires i <= |b.children|
    ensures forall v :: v in ChildVisits(b, i, names) ==>
              && |names| < |v.names|
              && v.names[..|names|] == names
              && exists j :: i <= j < |b.children| && PathIn(b.children[j], v.names[|names|..], v.bone)
    decreases b, |b.children| - i
  {
    if i < |b.children| {
      VisitPaths(b.children[i], names);
      ChildVisitPaths(b, i + 1, names);
    }
  }

  /** A path ends with the name of the bone it leads to. */
  lemma {:induction false} PathEndsAtBone(b: Bone, q: seq<string>, t: Bone)
    requires PathIn(b, q, t)
    ensures q[|q| - 1] == t.name
    decreases b
  {
    if |q| > 1 {
      var j :| 0 <= j < |b.children| && PathIn(b.children[j], q[1..], t);
      PathEndsAtBone(b.children[j], q[1..], t);
    }
  }

  /** Each socket is named by the path of bone names from the root. */
  lemma SocketPathsFromRoot(root: Bone)
    ensures var vs := Walk(root);
            var sockets := SocketsOf(vs, root);
            && |sockets| == |vs| - 1
            && forall k :: 0 <= k < |sockets| ==>
              && PathIn(root, vs[k + 1].names, vs[k + 1].bone)
              && sockets[k].path == Join(vs[k + 1].names, '/')
  {
    var vs := Walk(root);
    SocketsFollowWalk(root);
    VisitPaths(root, []);
    forall k | 0 <= k < |vs|
      ensures PathIn(root, vs[k].names, vs[k].bone)
    {
      assert vs[k] in vs;
      assert vs[k].names[0..] == vs[k].names;
    }
  }

  /** When the names avoid `c`, every name list of the walk does too. */
  lemma {:induction false} VisitNamesAvoid(b: Bone, prefix: seq<string>, c: char)
    requires NamesAvoid(b, c)
    requires forall k :: 0 <= k < |prefix| ==> c !in prefix[k]
    ensures forall v :: v in Visits(b, prefix) ==> forall k :: 0 <= k < |v.names| ==> c !in v.names[k]
    decreases b, |b.children| + 1
  {
    ChildVisitNamesAvoid(b, 0, prefix + [b.name], c);
  }

  lemma {:induction false} ChildVisitNamesAvoid(b: Bone, i: nat, names: seq<string>, c: char)
    requires i <= |b.children|
    requires forall j :: 0 <= j < |b.children| ==> NamesAvoid(b.children[j], c)
    requires forall k :: 0 <= k < |names| ==> c !in names[k]
    ensures forall v :: v in ChildVisits(b, i, names) ==> forall k :: 0 <= k < |v.names| ==> c !in v.names[k]
    decreases b, |b.children| - i
  {
    if i < |b.children| {
      VisitNamesAvoid(b.children[i], names, c);
      ChildVisitNamesAvoid(b, i + 1, names, c);
    }
  }

  // ---------------------------------------------------------------------------
  // Joining names is injective when no name holds the separator.

  lemma {:induction false} JoinSingle(parts: seq<string>, sep: char)
    requires |parts| == 1 && sep !in parts[0]
    ensures sep !in Join(parts, sep)
  {
  }

  lemma {:induction false} JoinSplits(parts: seq<string>, sep: char)
    requires |parts| > 1
    ensures var s := Join(parts, sep);
            && |parts[0]| < |s|
            && s[..|parts[0]|] == parts[0]
            && s[|parts[0]|] == sep
            && s[|parts[0]| + 1..] == Join(parts[1..], sep)
  {
  }

  /** Two non-empty name lists whose names avoid the separator join to the
      same string only if they are equal. */
  lemma {:induction false} JoinInjective(a: seq<string>, b: seq<string>, sep: char)
    requires |a| >= 1 && |b| >= 1
    requires forall k :: 0 <= k < |a| ==> sep !in a[k]
    requires forall k :: 0 <= k < |b| ==> sep !in b[k]
    requires Join(a, sep) == Join(b, sep)
    ensures a == b
    decreases |a|
  {
    var s := Join(a, sep);
    if |a| == 1 && |b| == 1 {
    } else if |a| == 1 {
      JoinSplits(b, sep);
      assert false;
    } else if |b| == 1 {
      JoinSplits(a, sep);
      assert false;
    } else {
      JoinSplits(a, sep);
      JoinSplits(b, sep);
      if |a[0]| != |b[0]| {
        assert false;
      }
      assert a[0] == b[0];
      JoinInjective(a[1..], b[1..], sep);
      assert a == [a[0]] + a[1..];
      assert b == [b[0]] + b[1..];
    }
  }

  /** Socket paths are unique when bone names are unique and none holds '/'. */
  lemma SocketPathsUnique(root: Bone)
    requires DistinctNames(Walk(root))
    requires NamesAvoid(root, '/')
    ensures var sockets := SocketsOf(Walk(root), root);
            forall i, j :: 0 <= i < j < |sockets| ==> sockets[i].path != sockets[j].path
  {
    var vs := Walk(root);
    var sockets := SocketsOf(vs, root);
    forall i, j | 0 <= i < j < |sockets|
      ensures sockets[i].path != sockets[j].path
    {
      SocketOfVisit(root, i);
      SocketOfVisit(root, j);
      PathsOfDifferentBones(root, vs[i + 1], vs[j + 1]);
    }
  }

  /** The `k`-th socket comes from the visit after the root's `k`-th
      successor: its path joins that visit's names, which lead from the root
      to the visited bone and avoid '/'. */
  lemma SocketOfVisit(root: Bone, k: nat)
    requires NamesAvoid(root, '/')
    requires k < |SocketsOf(Walk(root), root)|
    ensures var vs := Walk(root);
            && k + 1 < |vs|
            && PathIn(root, vs[k + 1].names, vs[k + 1].bone)
            && SocketsOf(vs, root)[k].path == Join(vs[k + 1].names, '/')
            && ListAvoids(vs[k + 1].names, '/')
  {
    var vs := Walk(root);
    SocketsFollowWalk(root);
    VisitPaths(root, []);
    VisitNamesAvoid(root, [], '/');
    var v := vs[k + 1];
    assert v in Visits(root, []);
    assert v.names[0..] == v.names;
    assert SocketsOf(vs, root)[k] == SocketFor(v);
  }

  /** Name lists leading from the root to two differently named bones join
      to different strings. */
  lemma PathsOfDifferentBones(root: Bone, a: Visit, b: Visit)
    requires PathIn(root, a.names, a.bone) && PathIn(root, b.names, b.bone)
    requires ListAvoids(a.names, '/') && ListAvoids(b.names, '/')
    requires a.bone.name != b.bone.name
    ensures Join(a.names, '/') != Join(b.names, '/')
  {
    PathEndsAtBone(root, a.names, a.bone);
    PathEndsAtBone(root, b.names, b.bone);
    if Join(a.names, '/') == Join(b.names, '/') {
      JoinInjective(a.names, b.names, '/');
    }
  }

  // ---------------------------------------------------------------------------
  // The bone-node entries and the bone -> node table.

  lemma {:induction false} BoneNodeEntriesAppend(m: map<nat, Option<SceneNode>>, a: seq<Visit>, b: seq<Visit>, root: Bone)
    ensures BoneNodeEntries(m, a + b, root) == BoneNodeEntries(BoneNodeEntries(m, a, root), b, root)
    decreases |a|
  {
    if a != [] {
      assert (a + b)[0] == a[0];
      assert (a + b)[1..] == a[1..] + b;
      BoneNodeEntriesAppend(m[a[0].bone.index := NodeEntry(a[0], root)], a[1..], b, root);
    } else {
      assert a + b == b;
    }
  }

  lemma {:induction false} SocketNodesAppend(m: map<nat, SceneNode>, a: seq<Visit>, b: seq<Visit>, root: Bone)
    ensures SocketNodesOf(m, a + b, root) == SocketNodesOf(SocketNodesOf(m, a, root), b, root)
    decreases |a|
  {
    if a != [] {
      assert (a + b)[0] == a[0];
      assert (a + b)[1..] == a[1..] + b;
      SocketNodesAppend(if a[0].bone != root then m[a[0].bone.index := SocketNode(a[0])] else m, a[1..], b, root);
    } else {
      assert a + b == b;
    }
  }

  lemma {:induction false} SocketsOfAppend(a: seq<Visit>, b: seq<Visit>, root: Bone)
    ensures SocketsOf(a + b, root) == SocketsOf(a, root) + SocketsOf(b, root)
    decreases |a|
  {
    if a != [] {
      assert (a + b)[0] == a[0];
      assert (a + b)[1..] == a[1..] + b;
      SocketsOfAppend(a[1..], b, root);
    } else {
      assert a + b == b;
    }
  }

  /** With distinct indices, each visited bone's entry holds what its own
      visit wrote. */
  lemma {:induction false} BoneNodeEntriesAt(m: map<nat, Option<SceneNode>>, vs: seq<Visit>, root: Bone)
    requires DistinctIndices(vs)
    ensures var r := BoneNodeEntries(m, vs, root);
            forall k :: 0 <= k < |vs| ==> vs[k].bone.index in r && r[vs[k].bone.index] == NodeEntry(vs[k], root)
    decreases |vs|
  {
    if vs != [] {
      var m' := m[vs[0].bone.index := NodeEntry(vs[0], root)];
      BoneNodeEntriesAt(m', vs[1..], root);
      BoneNodeEntriesKeys(m', vs[1..], root);
      var r := BoneNodeEntries(m, vs, root);
      assert r == BoneNodeEntries(m', vs[1..], root);
      forall k | 0 <= k < |vs|
        ensures vs[k].bone.index in r && r[vs[k].bone.index] == NodeEntry(vs[k], root)
      {
        if k > 0 {
          assert vs[1..][k - 1] == vs[k];
        } else {
          BoneNodeEntriesElsewhere(m', vs[1..], root, vs[0].bone.index);
        }
      }
    }
  }

  /** An entry no visit writes keeps its value. */
  lemma {:induction false} BoneNodeEntriesElsewhere(m: map<nat, Option<SceneNode>>, vs: seq<Visit>, root: Bone, x: nat)
    requires x in m
    requires forall k :: 0 <= k < |vs| ==> vs[k].bone.index != x
    ensures var r := BoneNodeEntries(m, vs, root);
            x in r && r[x] == m[x]
    decreases |vs|
  {
    if vs != [] {
      assert vs[0].bone.index != x;
      forall k | 0 <= k < |vs[1..]|
        ensures vs[1..][k].bone.index != x
      {
        assert vs[1..][k] == vs[k + 1];
      }
      BoneNodeEntriesElsewhere(m[vs[0].bone.index := NodeEntry(vs[0], root)], vs[1..], root, x);
    }
  }

  /** The walk adds an entry for each visited bone and no other. */
  lemma {:induction false} BoneNodeEntriesKeys(m: map<nat, Option<SceneNode>>, vs: seq<Visit>, root: Bone)
    ensures BoneNodeEntries(m, vs, root).Keys == m.Keys + (set k | 0 <= k < |vs| :: vs[k].bone.index)
    decreases |vs|
  {
    if vs != [] {
      var m' := m[vs[0].bone.index := NodeEntry(vs[0], root)];
      BoneNodeEntriesKeys(m', vs[1..], root);
      var idx := set k | 0 <= k < |vs| :: vs[k].bone.index;
      var rest := set k | 0 <= k < |vs[1..]| :: vs[1..][k].bone.index;
      forall x | x in idx
        ensures x in rest + {vs[0].bone.index}
      {
        var k :| 0 <= k < |vs| && vs[k].bone.index == x;
        if k > 0 {
          assert vs[1..][k - 1] == vs[k];
        }
      }
      forall x | x in rest
        ensures x in idx
      {
        var k :| 0 <= k < |vs[1..]| && vs[1..][k].bone.index == x;
        assert vs[k + 1] == vs[1..][k];
      }
    }
  }

  /** After the walk from the root, `_boneNodes` has an entry for every bone
      of the walk: null for the root, the bone's socket node for the others. */
  lemma BoneNodesAfterWalk(root: Bone)
    requires DistinctIndices(Walk(root))
    ensures var vs := Walk(root);
            var r := BoneNodeEntries(map[], vs, root);
            && root.index in r && r[root.index] == None
            && (forall k :: 1 <= k < |vs| ==> vs[k].bone.index in r && r[vs[k].bone.index] == Some(SocketNode(vs[k])))
            && r.Keys == set k | 0 <= k < |vs| :: vs[k].bone.index
  {
    var vs := Walk(root);
    VisitsShape(root, []);
    BoneNodeEntriesAt(map[], vs, root);
    BoneNodeEntriesKeys(map[], vs, root);
    assert vs[0].bone == root;
  }

  /** The bone -> node table holds exactly the non-root visits. */
  lemma {:induction false} SocketNodesKeys(m: map<nat, SceneNode>, vs: seq<Visit>, root: Bone)
    ensures SocketNodesOf(m, vs, root).Keys == m.Keys + set k | 0 <= k < |vs| && vs[k].bone != root :: vs[k].bone.index
    decreases |vs|
  {
    if vs != [] {
      var m' := if vs[0].bone != root then m[vs[0].bone.index := SocketNode(vs[0])] else m;
      SocketNodesKeys(m', vs[1..], root);
      var idx := set k | 0 <= k < |vs| && vs[k].bone != root :: vs[k].bone.index;
      var rest := set k | 0 <= k < |vs[1..]| && vs[1..][k].bone != root :: vs[1..][k].bone.index;
      forall x | x in idx
        ensures x in rest || x in m'.Keys
      {
        var k :| 0 <= k < |vs| && vs[k].bone != root && vs[k].bone.index == x;
        if k > 0 {
          assert vs[1..][k - 1] == vs[k];
        }
      }
      forall x | x in rest
        ensures x in idx
      {
        var k :| 0 <= k < |vs[1..]| && vs[1..][k].bone != root && vs[1..][k].bone.index == x;
        assert vs[k + 1] == vs[1..][k];
      }
    }
  }

  // ---------------------------------------------------------------------------
  // Which skeleton slots get an equipment slot.

  /** The indices of the skeleton slots whose bone received a socket, in
      skeleton slot order. */
  function BoundSlots(slots: seq<SkeletonSlot>, socketBones: set<nat>): (r: seq<nat>)
    ensures forall k :: 0 <= k < |r| ==> r[k] < |slots| && slots[r[k]].bone in socketBones
    ensures forall i :: 0 <= i < |slots| && slots[i].bone in socketBones ==> i in r
    ensures forall k, l :: 0 <= k < l < |r| ==> r[k] < r[l]
    decreases |slots|
  {
    if slots == [] then []
    else
      var n := |slots| - 1;
      BoundSlots(slots[..n], socketBones) + (if slots[n].bone in socketBones then [n] else [])
  }
}
