/**
 Path resolution with symbolic links: a worklist of components, spliced whenever a link
 is met, against the nested definition of what following a link means.
 */
module Resolve {
  import opened Basics
  import opened Images

  const MAXSYMLINKS: nat := 40

  type Name = seq<byte>

  /** What resolution asks of a filesystem; `readTarget` also refuses targets that are not text. */
  datatype Tree = Tree(
    root: Result<Inode>, lookup: (Inode, Name) -> Result<Inode>,
    isSymlink: Inode -> bool, readTarget: Inode -> Result<seq<byte>>)

  /** `split('/')` with the empty parts dropped; `part` is the component being read. */
  function Split(path: seq<byte>, part: Name): seq<Name>
    decreases |path|
  {
    if path == [] then (if part == [] then [] else [part])
    else if path[0] == SLASH then (if part == [] then [] else [part]) + Split(path[1..], [])
    else Split(path[1..], part + [path[0]])
  }

  function Components(path: seq<byte>): seq<Name> {
    Split(path, [])
  }

  predicate IsAbsolute(path: seq<byte>) {
    path != [] && path[0] == SLASH
  }

  // ----- Plain lookup

  function WalkFrom(t: Tree, node: Inode, names: seq<Name>): Result<Inode>
    decreases |names|
  {
    if names == [] then Ok(node)
    else
      var next :- t.lookup(node, names[0]);
      WalkFrom(t, next, names[1..])
  }

  /** `lookup_path` over components. */
  function Walk(t: Tree, names: seq<Name>): Result<Inode> {
    var node :- t.root;
    WalkFrom(t, node, names)
  }

  lemma {:induction false} WalkFromStep(t: Tree, node: Inode, names: seq<Name>, c: Name)
    ensures WalkFrom(t, node, names + [c])
            == (var at := WalkFrom(t, node, names); if at.Ok? then t.lookup(at.value, c) else Err)
    decreases |names|
  {
    if names == [] {
      assert ([] + [c])[1..] == [];
      assert names + [c] == [c];
    } else {
      assert (names + [c])[1..] == names[1..] + [c];
      var next := t.lookup(node, names[0]);
      if next.Ok? {
        WalkFromStep(t, next.value, names[1..], c);
      }
    }
  }

  lemma WalkStep(t: Tree, names: seq<Name>, c: Name)
    ensures Walk(t, names + [c]) == (var at := Walk(t, names); if at.Ok? then t.lookup(at.value, c) else Err)
  {
    if t.root.Ok? {
      WalkFromStep(t, t.root.value, names, c);
    }
  }

  // ----- The worklist, as a function

  /** The link-free path that `pending` leads to from `walked`, and the links still allowed. */
  function Expand(t: Tree, walked: seq<Name>, pending: seq<Name>, budget: nat): (r: Result<(seq<Name>, nat)>)
    ensures r.Ok? ==> r.value.1 <= budget
    decreases budget, |pending|
  {
    if pending == [] then Ok((walked, budget))
    else
      var node :- Walk(t, walked + [pending[0]]);
      if !t.isSymlink(node) then Expand(t, walked + [pending[0]], pending[1..], budget)
      else if budget == 0 then Err
      else
        var target :- t.readTarget(node);
        Expand(t, if IsAbsolute(target) then [] else walked, Components(target) + pending[1..], budget - 1)
  }

  /** `resolve_path` with `follow_symlinks`, as a function. */
  function Resolved(t: Tree, path: seq<byte>): Result<Inode> {
    var done :- Expand(t, [], Components(path), MAXSYMLINKS);
    Walk(t, done.0)
  }

  /** `resolve_path`. `walked` is the link-free path of the result, `left` the budget it left. */
  method ResolvePath(t: Tree, path: seq<byte>, followSymlinks: bool)
    returns (r: Result<Inode>, ghost walked: seq<Name>, ghost left: nat)
    ensures !followSymlinks ==> r == Walk(t, Components(path))
    ensures followSymlinks ==> r == Resolved(t, path)
    ensures followSymlinks && r.Ok? ==> r == Walk(t, walked) && left <= MAXSYMLINKS
    ensures followSymlinks && r.Ok? ==> Expand(t, [], Components(path), MAXSYMLINKS) == Ok((walked, left))
  {
    hide Walk, WalkFrom, Components, IsAbsolute;
    walked, left := [], 0;
    if !followSymlinks {
      r := LookupPath(t, path);
      return;
    }
    var budget: nat := MAXSYMLINKS;
    var pending := Components(path);
    var trail: seq<Name> := [];
    RootWalk(t);
    if t.root.Err? {
      RootMissing(t, pending, MAXSYMLINKS);
    }
    var node :- NodeAt(t, trail);
    ghost var first := pending;
    while pending != []
      invariant Walk(t, trail) == Ok(node)
      invariant Expand(t, trail, pending, budget) == Expand(t, [], first, MAXSYMLINKS)
      decreases budget, |pending|
    {
      var component := pending[0];
      pending := pending[1..];
      WalkStep(t, trail, component);
      node :- t.lookup(node, component);
      if t.isSymlink(node) {
        if budget == 0 {
          return Err, walked, left;
        }
        budget := budget - 1;
        var target :- t.readTarget(node);
        if IsAbsolute(target) {
          trail := [];
        }
        // cannot fail: this path was walked before
        var again := NodeAt(t, trail);
        node := again.value;
        pending := Components(target) + pending;
      } else {
        trail := trail + [component];
      }
    }
    return Ok(node), trail, budget;
  }

  /** The walk from the root that the code repeats for every relative link. */
  method NodeAt(t: Tree, names: seq<Name>) returns (r: Result<Inode>)
    ensures r == Walk(t, names)
  {
    var node :- t.root;
    for i := 0 to |names|
      invariant WalkFrom(t, t.root.value, names) == WalkFrom(t, node, names[i..])
    {
      assert names[i..][1..] == names[i + 1..];
      node :- t.lookup(node, names[i]);
    }
    assert names[|names|..] == [];
    return Ok(node);
  }

  /** `lookup_path`. */
  method LookupPath(t: Tree, path: seq<byte>) returns (r: Result<Inode>)
    ensures r == Walk(t, Components(path))
  {
    r := NodeAt(t, Components(path));
  }

  // ----- What splicing means

  /** Following a link by resolving its target first, then the rest of the path. */
  function Nested(t: Tree, walked: seq<Name>, pending: seq<Name>, budget: nat): (r: Result<(seq<Name>, nat)>)
    ensures r.Ok? ==> r.value.1 <= budget
    decreases budget, |pending|
  {
    if pending == [] then Ok((walked, budget))
    else
      var node :- Walk(t, walked + [pending[0]]);
      if !t.isSymlink(node) then Nested(t, walked + [pending[0]], pending[1..], budget)
      else if budget == 0 then Err
      else
        var target :- t.readTarget(node);
        var inner :- Nested(t, if IsAbsolute(target) then [] else walked, Components(target), budget - 1);
        Nested(t, inner.0, pending[1..], inner.1)
  }

  /** Splicing in front of the worklist is resolving in front of it. */
  lemma {:induction false} SpliceLaw(t: Tree, walked: seq<Name>, front: seq<Name>, rest: seq<Name>, budget: nat)
    ensures Expand(t, walked, front + rest, budget)
            == (var mid := Expand(t, walked, front, budget);
                if mid.Ok? then Expand(t, mid.value.0, rest, mid.value.1) else Err)
    decreases budget, |front|
  {
    hide Walk, Components, IsAbsolute;
    if front == [] {
      assert front + rest == rest;
    } else {
      assert (front + rest)[1..] == front[1..] + rest;
      var node := Walk(t, walked + [front[0]]);
      if node.Ok? {
        if !t.isSymlink(node.value) {
          SpliceLaw(t, walked + [front[0]], front[1..], rest, budget);
        } else if budget > 0 {
          var target := t.readTarget(node.value);
          if target.Ok? {
            var names := Components(target.value);
            assert names + (front[1..] + rest) == (names + front[1..]) + rest;
            SpliceLaw(t, if IsAbsolute(target.value) then [] else walked, names + front[1..], rest, budget - 1);
          }
        }
      }
    }
  }

  /** The worklist resolves exactly what the nested definition does, with the same budget. */
  lemma {:induction false} WorklistIsNested(t: Tree, walked: seq<Name>, pending: seq<Name>, budget: nat)
    ensures Expand(t, walked, pending, budget) == Nested(t, walked, pending, budget)
    decreases budget, |pending|
  {
    hide Walk, Components, IsAbsolute;
    if pending != [] {
      var node := Walk(t, walked + [pending[0]]);
      if node.Ok? {
        if !t.isSymlink(node.value) {
          WorklistIsNested(t, walked + [pending[0]], pending[1..], budget);
        } else if budget > 0 {
          var target := t.readTarget(node.value);
          if target.Ok? {
            var base := if IsAbsolute(target.value) then [] else walked;
            var names := Components(target.value);
            SpliceLaw(t, base, names, pending[1..], budget - 1);
            WorklistIsNested(t, base, names, budget - 1);
            var inner := Expand(t, base, names, budget - 1);
            if inner.Ok? {
              WorklistIsNested(t, inner.value.0, pending[1..], inner.value.1);
            }
          }
        }
      }
    }
  }

  // ----- Paths without links

  /** No prefix of the path, itself included, is a link. */
  ghost predicate LinkFree(t: Tree, names: seq<Name>) {
    forall i :: 0 < i <= |names| && Walk(t, names[..i]).Ok? ==> !t.isSymlink(Walk(t, names[..i]).value)
  }

  lemma {:induction false} LinkFreeTail(t: Tree, names: seq<Name>, i: nat, budget: nat)
    requires LinkFree(t, names) && i <= |names| && Walk(t, names[..i]).Ok?
    ensures Expand(t, names[..i], names[i..], budget)
            == if Walk(t, names).Ok? then Ok((names, budget)) else Err
    decreases |names| - i
  {
    hide Walk;
    if i == |names| {
      assert names[..i] == names;
    } else {
      assert names[..i] + [names[i]] == names[..i + 1];
      assert names[i..][1..] == names[i + 1..];
      if Walk(t, names[..i + 1]).Ok? {
        LinkFreeTail(t, names, i + 1, budget);
      } else {
        WalkPrefix(t, names, i + 1);
      }
    }
  }

  lemma {:induction false} WalkPrefix(t: Tree, names: seq<Name>, i: nat)
    requires i <= |names| && Walk(t, names[..i]).Err?
    ensures Walk(t, names).Err?
    decreases |names| - i
  {
    hide Walk;
    if i == |names| {
      assert names[..i] == names;
    } else {
      assert names[..i] + [names[i]] == names[..i + 1];
      WalkStep(t, names[..i], names[i]);
      WalkPrefix(t, names, i + 1);
    }
  }

  /** On a path without links, following them is plain lookup. */
  lemma LinkFreeIsLookup(t: Tree, path: seq<byte>)
    requires LinkFree(t, Components(path))
    ensures Resolved(t, path) == Walk(t, Components(path))
  {
    hide Expand, Components, LinkFree;
    var names := Components(path);
    assert names[..0] == [] && names[0..] == names;
    if t.root.Ok? {
      LinkFreeTail(t, names, 0, MAXSYMLINKS);
    } else {
      RootMissing(t, names, MAXSYMLINKS);
    }
  }

  lemma RootWalk(t: Tree)
    ensures Walk(t, []) == t.root
  {
  }

  lemma RootMissing(t: Tree, names: seq<Name>, budget: nat)
    requires t.root.Err?
    ensures Expand(t, [], names, budget) == if names == [] then Ok(([], budget)) else Err
  {
  }

  /** What was walked in the end contains no link that was not followed. */
  lemma {:induction false} ResultIsLinkFree(t: Tree, walked: seq<Name>, pending: seq<Name>, budget: nat)
    requires LinkFree(t, walked) && Expand(t, walked, pending, budget).Ok?
    ensures LinkFree(t, Expand(t, walked, pending, budget).value.0)
    decreases budget, |pending|
  {
    hide Walk, Components, IsAbsolute;
    if pending != [] {
      var longer := walked + [pending[0]];
      var node := Walk(t, longer).value;
      if !t.isSymlink(node) {
        forall i | 0 < i <= |longer| && Walk(t, longer[..i]).Ok?
          ensures !t.isSymlink(Walk(t, longer[..i]).value)
        {
          if i < |longer| { assert longer[..i] == walked[..i]; } else { assert longer[..i] == longer; }
        }
        ResultIsLinkFree(t, longer, pending[1..], budget);
      } else {
        var target := t.readTarget(node).value;
        ResultIsLinkFree(t, if IsAbsolute(target) then [] else walked, Components(target) + pending[1..], budget - 1);
      }
    }
  }

  /** A link to itself is refused, whatever the budget. */
  lemma {:induction false} SelfLinkFails(t: Tree, walked: seq<Name>, c: Name, rest: seq<Name>, budget: nat)
    requires Walk(t, walked + [c]).Ok? && t.isSymlink(Walk(t, walked + [c]).value)
    requires var target := t.readTarget(Walk(t, walked + [c]).value);
             target.Ok? && !IsAbsolute(target.value) && Components(target.value) == [c]
    ensures Expand(t, walked, [c] + rest, budget) == Err
    decreases budget
  {
    hide Walk, Components, IsAbsolute;
    assert ([c] + rest)[1..] == rest;
    if budget > 0 {
      SelfLinkFails(t, walked, c, rest, budget - 1);
    }
  }
}
