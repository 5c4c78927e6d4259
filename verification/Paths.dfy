/** From inode to path: walking the recorded parents up to the root. */
module Paths {
  import opened Bytes

  const ROOT: nat := 1
  const SLASH: byte := 47

  /** `parentHandle` and `name` as recorded in an inode when it was created. */
  datatype PathInfo = PathInfo(parent: nat, name: Str)

  type Tree = map<nat, PathInfo>

  /** Handles are allocated in increasing order, so a parent is older than its child; names are
      non-empty and slash-free; and no two inodes record the same parent and name. */
  ghost predicate TreeOK(t: Tree)
  {
    && Downward(t)
    && (forall i | i in t :: t[i].name != [] && SLASH !in t[i].name && ROOT <= t[i].parent)
    && (forall i, j | i in t && j in t && t[i] == t[j] :: i == j)
  }

  predicate Downward(t: Tree)
  {
    forall i | i in t :: ROOT < i && t[i].parent < i
  }

  /** The names on the way down from the root, or `None` if an inode on the way is missing. */
  function Parts(t: Tree, i: nat): (r: Option<seq<Str>>)
    requires Downward(t)
    decreases i
  {
    if i <= ROOT then Some([])
    else if i !in t then None
    else
      var up := Parts(t, t[i].parent);
      if up.None? then None else Some(up.value + [t[i].name])
  }

  /** Each part followed by a slash; the last slash is then popped. */
  function Slashed(parts: seq<Str>): Str
  {
    if parts == [] then [] else parts[0] + [SLASH] + Slashed(parts[1..])
  }

  function Join(parts: seq<Str>): Str
  {
    var s := Slashed(parts);
    if s == [] then [] else s[..|s| - 1]
  }

  function Path(t: Tree, i: nat): Option<Str>
    requires Downward(t)
  {
    var p := Parts(t, i);
    if p.None? then None else Some(Join(p.value))
  }

  /** The root's path is empty. */
  lemma RootHasPath(t: Tree)
    requires Downward(t)
    ensures Path(t, ROOT) == Some([])
  {
  }

  function Below(up: Option<seq<Str>>, parts: seq<Str>): Option<seq<Str>>
  {
    if up.None? then None else Some(up.value + parts)
  }

  lemma OneLevelUp(t: Tree, i: nat, parts: seq<Str>)
    requires Downward(t) && i in t
    ensures Below(Parts(t, i), parts) == Below(Parts(t, t[i].parent), [t[i].name] + parts)
  {
    var up := Parts(t, t[i].parent);
    if up.Some? {
      assert up.value + [t[i].name] + parts == up.value + ([t[i].name] + parts);
    }
  }

  /** `GetPath`: the loop walks up, inserting each name at the front. */
  method GetPath(t: Tree, inode: nat) returns (path: Option<Str>)
    requires Downward(t)
    ensures path == Path(t, inode)
  {
    var i: nat := inode;
    var parts: seq<Str> := [];
    ghost var goal := Parts(t, inode);
    assert goal.Some? ==> goal.value + [] == goal.value;
    while i > ROOT
      invariant goal == Below(Parts(t, i), parts)
      decreases i
    {
      if i !in t {
        return None;
      }
      OneLevelUp(t, i, parts);
      parts := [t[i].name] + parts;
      i := t[i].parent;
    }
    assert [] + parts == parts;
    path := Some(Join(parts));
  }

  /** Creating an inode under a fresh, larger handle keeps the tree in order, provided the parent
      has no child recorded under that name. */
  lemma CreateKeepsTree(t: Tree, h: nat, info: PathInfo)
    requires TreeOK(t) && h > ROOT && h !in t && ROOT <= info.parent < h
    requires info.name != [] && SLASH !in info.name
    requires forall i | i in t :: t[i] != info
    ensures TreeOK(t[h := info])
  {
  }

  /** Adding an inode changes no path of an inode that had one. */
  lemma {:induction false} PathKept(t: Tree, h: nat, info: PathInfo, i: nat)
    requires Downward(t) && Downward(t[h := info]) && h !in t && Parts(t, i).Some?
    ensures Parts(t[h := info], i) == Parts(t, i)
    decreases i
  {
    if i > ROOT {
      PathKept(t, h, info, t[i].parent);
    }
  }

  // ---- distinct inodes have distinct paths ------------------------------------------------

  lemma {:induction false} PartsInjective(t: Tree, i: nat, j: nat)
    requires TreeOK(t) && ROOT <= i && ROOT <= j
    requires Parts(t, i).Some? && Parts(t, i) == Parts(t, j)
    ensures i == j
    decreases i
  {
    if i > ROOT && j > ROOT {
      var p, q := Parts(t, t[i].parent).value, Parts(t, t[j].parent).value;
      LastPart(p, q, t[i].name, t[j].name);
      PartsInjective(t, t[i].parent, t[j].parent);
    }
  }

  lemma LastPart(p: seq<Str>, q: seq<Str>, a: Str, b: Str)
    requires p + [a] == q + [b]
    ensures p == q && a == b
  {
    var s, r := p + [a], q + [b];
    assert |p| == |q|;
    assert s[|p|] == a && r[|q|] == b;
    assert p == s[..|p|] && q == r[..|q|];
  }

  ghost predicate PartsOK(parts: seq<Str>)
  {
    forall k :: 0 <= k < |parts| ==> parts[k] != [] && SLASH !in parts[k]
  }

  lemma {:induction false} PartsAreOK(t: Tree, i: nat)
    requires TreeOK(t) && Parts(t, i).Some?
    ensures PartsOK(Parts(t, i).value)
    decreases i
  {
    if i > ROOT {
      PartsAreOK(t, t[i].parent);
    }
  }

  lemma FirstSlash(a: Str, s: Str, b: Str, r: Str)
    requires SLASH !in a && SLASH !in b && a + [SLASH] + s == b + [SLASH] + r
    ensures a == b && s == r
  {
    var x, y := a + [SLASH] + s, b + [SLASH] + r;
    assert x[|a|] == SLASH && y[|b|] == SLASH;
    assert forall k :: 0 <= k < |a| ==> x[k] == a[k];
    assert forall k :: 0 <= k < |b| ==> y[k] == b[k];
    assert |a| == |b|;
    assert a == x[..|a|] && b == y[..|b|];
    assert s == x[|a| + 1..] && r == y[|b| + 1..];
  }

  lemma {:induction false} SlashedInjective(p: seq<Str>, q: seq<Str>)
    requires PartsOK(p) && PartsOK(q) && Slashed(p) == Slashed(q)
    ensures p == q
  {
    if p != [] && q != [] {
      FirstSlash(p[0], Slashed(p[1..]), q[0], Slashed(q[1..]));
      SlashedInjective(p[1..], q[1..]);
      assert p == [p[0]] + p[1..] && q == [q[0]] + q[1..];
    }
  }

  lemma {:induction false} SlashedEnds(p: seq<Str>)
    requires p != []
    ensures Slashed(p) != [] && Slashed(p)[|Slashed(p)| - 1] == SLASH
    ensures PartsOK(p) ==> |Slashed(p)| > 1
  {
    if |p| > 1 {
      SlashedEnds(p[1..]);
    }
  }

  lemma JoinInjective(p: seq<Str>, q: seq<Str>)
    requires PartsOK(p) && PartsOK(q) && Join(p) == Join(q)
    ensures p == q
  {
    if p != [] { SlashedEnds(p); }
    if q != [] { SlashedEnds(q); }
    if p != [] && q != [] {
      var a, b := Slashed(p), Slashed(q);
      assert a == a[..|a| - 1] + [SLASH] && b == b[..|b| - 1] + [SLASH];
      SlashedInjective(p, q);
    }
  }

  /** Distinct inodes get distinct paths, so a lookup by path finds the right inode. */
  lemma PathsAreDistinct(t: Tree, i: nat, j: nat)
    requires TreeOK(t) && ROOT <= i && ROOT <= j
    requires Path(t, i).Some? && Path(t, i) == Path(t, j)
    ensures i == j
  {
    PartsAreOK(t, i);
    PartsAreOK(t, j);
    JoinInjective(Parts(t, i).value, Parts(t, j).value);
    PartsInjective(t, i, j);
  }

  lemma {:induction false} SlashedAppend(parts: seq<Str>, name: Str)
    ensures Slashed(parts + [name]) == Slashed(parts) + name + [SLASH]
  {
    var all := parts + [name];
    if parts == [] {
      assert all[1..] == [];
    } else {
      assert all[1..] == parts[1..] + [name];
      SlashedAppend(parts[1..], name);
    }
  }

  /** The path of an inode is its parent's path, a slash and its name; in the root it is the name; and
      it is missing exactly when an inode on the way is. */
  lemma PathFromParent(t: Tree, i: nat)
    requires TreeOK(t) && i > ROOT
    ensures i !in t ==> Path(t, i) == None
    ensures i in t && t[i].parent == ROOT ==> Path(t, i) == Some(t[i].name)
    ensures i in t && t[i].parent != ROOT ==>
              var up := Path(t, t[i].parent);
              Path(t, i) == if up.None? then None else Some(up.value + [47] + t[i].name)
  {
    if i in t && Parts(t, t[i].parent).Some? {
      var parts, name := Parts(t, t[i].parent).value, t[i].name;
      SlashedAppend(parts, name);
      if t[i].parent == ROOT {
        assert [] + name + [SLASH] == name + [SLASH] && (name + [SLASH])[..|name|] == name;
      } else {
        SlashedEnds(parts);
        var a := Slashed(parts);
        assert a == a[..|a| - 1] + [SLASH];
      }
    }
  }
}
