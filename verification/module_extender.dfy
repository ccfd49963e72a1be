/** The transform that `register_module_extender` registers: when a
    `Module` node named `module_name` is built, every binding of an
    extension module's symbol table is copied into the module's own symbol
    table (overwriting a binding of the same name), and every copied object
    still owned by the extension module is handed over to the module.

    The extension module, which the source obtains by calling the
    `get_extension_mod` callback, is here a node already in the arena. */
module ModuleExtender {
  import opened Optional
  import opened NodeGraph

  /** The entries of a symbol table whose names are in `names`. */
  function Restrict(m: map<string, seq<NodeId>>, names: set<string>): (r: map<string, seq<NodeId>>)
    ensures r.Keys == m.Keys * names
    ensures forall k | k in r :: r[k] == m[k]
  {
    map k | k in m && k in names :: m[k]
  }

  /** The arena once the transform has copied the extension entries whose
      names are in `names` and has considered re-parenting the objects in
      `seen`: the states the source's loop passes through. */
  function Staged(a: Arena, target: NodeId, ext: NodeId, names: set<string>, seen: set<NodeId>): (b: Arena)
    requires target in a && ext in a
  {
    map id | id in a ::
      a[id].(locals := if id == target then a[id].locals + Restrict(a[ext].locals, names) else a[id].locals,
             parent := if id in seen && a[id].parent == Some(ext) then Some(target) else a[id].parent)
  }

  /** The transform applied to the module `target` with the extension module
      `ext`, as a single arena-to-arena function. */
  function Extend(a: Arena, target: NodeId, ext: NodeId): (b: Arena)
    requires target in a && ext in a
    ensures b.Keys == a.Keys
    ensures forall id | id in a :: b[id].kind == a[id].kind && b[id].name == a[id].name
    // every extension name is bound in the target exactly as in the extension,
    // whether or not the target bound it before
    ensures forall k | k in a[ext].locals ::
      k in b[target].locals && b[target].locals[k] == a[ext].locals[k]
    // the target's other names keep their binding, and no other name appears
    ensures forall k | k in a[target].locals && k !in a[ext].locals ::
      k in b[target].locals && b[target].locals[k] == a[target].locals[k]
    ensures b[target].locals.Keys == a[target].locals.Keys + a[ext].locals.Keys
    // a listed object owned by the extension is now owned by the target
    ensures forall k, obj | k in a[ext].locals && obj in a[ext].locals[k] && obj in a && a[obj].parent == Some(ext) ::
      b[obj].parent == Some(target)
    // an object owned by anything else keeps its owner
    ensures forall id | id in a && a[id].parent != Some(ext) :: b[id].parent == a[id].parent
    // an object the extension does not list keeps its owner
    ensures forall id | id in a && id !in Listed(a[ext].locals) :: b[id].parent == a[id].parent
    // only the target's symbol table changes; the extension's is only read
    ensures forall id | id in a && id != target :: b[id].locals == a[id].locals
    ensures b[ext].locals == a[ext].locals
    // a node that is neither the target nor listed is untouched
    ensures forall id | id in a && id != target && id !in Listed(a[ext].locals) :: b[id] == a[id]
  {
    Staged(a, target, ext, a[ext].locals.Keys, Listed(a[ext].locals))
  }

  /** The registration guard: the transform fires on `Module` nodes whose
      name is `moduleName`. */
  predicate Matches(a: Arena, id: NodeId, moduleName: string)
    requires id in a
  {
    a[id].kind == Module && a[id].name == moduleName
  }

  /** The registered transform visiting node `id`: the extension is applied
      when the guard holds, and the arena is left as it is otherwise. */
  function Fire(a: Arena, id: NodeId, moduleName: string, ext: NodeId): (b: Arena)
    requires id in a && ext in a
    ensures !Matches(a, id, moduleName) ==> b == a
    ensures a[id].kind != Module ==> b == a
    ensures a[id].name != moduleName ==> b == a
    ensures Matches(a, id, moduleName) ==> b == Extend(a, id, ext)
  {
    if Matches(a, id, moduleName) then Extend(a, id, ext) else a
  }

  /** Storing one binding in the target's symbol table: the target's binding
      of `name` is replaced by `objs`, or added when there was none. */
  function Bind(b: Arena, target: NodeId, name: string, objs: seq<NodeId>): (c: Arena)
    requires target in b
    ensures c.Keys == b.Keys
    ensures name in c[target].locals && c[target].locals[name] == objs
    ensures forall k | k in b[target].locals && k != name :: k in c[target].locals && c[target].locals[k] == b[target].locals[k]
    ensures c[target].locals.Keys == b[target].locals.Keys + {name}
    ensures forall id | id in b && id != target :: c[id] == b[id]
    ensures c[target].parent == b[target].parent
    ensures c[target].kind == b[target].kind && c[target].name == b[target].name
  {
    b[target := b[target].(locals := b[target].locals[name := objs])]
  }

  /** One object of a copied binding: if the extension module owns it, the
      target becomes its owner. */
  function Adopt(b: Arena, target: NodeId, ext: NodeId, obj: NodeId): (c: Arena)
    ensures c.Keys == b.Keys
    ensures obj in b && b[obj].parent == Some(ext) ==> c[obj].parent == Some(target)
    ensures obj in b && b[obj].parent != Some(ext) ==> c[obj] == b[obj]
    ensures obj in b ==> c[obj].locals == b[obj].locals && c[obj].kind == b[obj].kind && c[obj].name == b[obj].name
    ensures forall id | id in b && id != obj :: c[id] == b[id]
  {
    if obj in b && b[obj].parent == Some(ext) then b[obj := b[obj].(parent := Some(target))] else b
  }

  /** Storing the extension's binding of one more name in the target's
      symbol table moves the loop from one stage to the next. */
  lemma BindStep(a: Arena, target: NodeId, ext: NodeId, names: set<string>, seen: set<NodeId>, name: string)
    requires target in a && ext in a
    requires name in a[ext].locals
    ensures Bind(Staged(a, target, ext, names, seen), target, name, a[ext].locals[name])
      == Staged(a, target, ext, names + {name}, seen)
  {
    var m := a[target].locals + Restrict(a[ext].locals, names);
    assert m[name := a[ext].locals[name]] == a[target].locals + Restrict(a[ext].locals, names + {name});
  }

  /** Handing one listed object over to the target, when it is still owned
      by the extension, moves the loop from one stage to the next. */
  lemma AdoptStep(a: Arena, target: NodeId, ext: NodeId, names: set<string>, seen: set<NodeId>, obj: NodeId)
    requires target in a && ext in a
    ensures Adopt(Staged(a, target, ext, names, seen), target, ext, obj)
      == Staged(a, target, ext, names, seen + {obj})
  {
  }

  /** The objects listed under the names `names + {name}` are those listed
      under `names` together with those listed under `name`. */
  lemma ListedGrows(m: map<string, seq<NodeId>>, names: set<string>, name: string)
    requires name in m
    ensures Listed(Restrict(m, names + {name})) == Listed(Restrict(m, names)) + Elems(m[name])
  {
  }

  /** Before the loop runs, the arena is the first stage. */
  lemma StagedStart(a: Arena, target: NodeId, ext: NodeId)
    requires target in a && ext in a
    ensures Staged(a, target, ext, {}, Listed(Restrict(a[ext].locals, {}))) == a
  {
    assert Restrict(a[ext].locals, {}) == map[];
    assert a[target].locals + map[] == a[target].locals;
  }

  /** Once every name is done, the stage reached is the whole transform. */
  lemma StagedEnd(a: Arena, target: NodeId, ext: NodeId, done: set<string>, seen: set<NodeId>)
    requires target in a && ext in a
    requires done == a[ext].locals.Keys
    requires seen == Listed(Restrict(a[ext].locals, done))
    ensures Staged(a, target, ext, done, seen) == Extend(a, target, ext)
  {
  }

  /** The inner loop of the source: each object of one binding that the
      extension still owns is handed over to the target. */
  method AdoptAll(a: Arena, target: NodeId, ext: NodeId, ghost names: set<string>, ghost seen: set<NodeId>,
                  objs: seq<NodeId>, b0: Arena) returns (b: Arena)
    requires target in a && ext in a
    requires b0 == Staged(a, target, ext, names, seen)
    ensures b == Staged(a, target, ext, names, seen + Elems(objs))
  {
    b := b0;
    var i := 0;
    while i < |objs|
      invariant 0 <= i <= |objs|
      invariant b == Staged(a, target, ext, names, seen + Elems(objs[..i]))
    {
      var obj := objs[i];
      AdoptStep(a, target, ext, names, seen + Elems(objs[..i]), obj);
      b := Adopt(b, target, ext, obj);
      assert Elems(objs[..i + 1]) == Elems(objs[..i]) + {obj} by {
        assert objs[..i + 1] == objs[..i] + [obj];
      }
      i := i + 1;
    }
    assert objs[..i] == objs;
  }

  /** One round of the source's outer loop: the binding of `name` is stored
      in the target, then its objects are considered for adoption. */
  method ExtendName(a: Arena, target: NodeId, ext: NodeId, ghost done: set<string>, name: string, b0: Arena)
    returns (b: Arena)
    requires target in a && ext in a
    requires name in a[ext].locals
    requires b0 == Staged(a, target, ext, done, Listed(Restrict(a[ext].locals, done)))
    ensures b == Staged(a, target, ext, done + {name}, Listed(Restrict(a[ext].locals, done + {name})))
  {
    ghost var seen := Listed(Restrict(a[ext].locals, done));
    var objs := a[ext].locals[name];
    BindStep(a, target, ext, done, seen, name);
    b := Bind(b0, target, name, objs);
    b := AdoptAll(a, target, ext, done + {name}, seen, objs, b);
    ListedGrows(a[ext].locals, done, name);
  }

  /** The source's loop: the names of the extension's symbol table are taken
      one at a time, in whatever order the table yields them; each binding is
      stored in the target, then each object of the binding that the
      extension still owns is handed over to the target.  Whatever the
      order, the outcome is the arena `Extend` describes. */
  method RunExtender(a: Arena, target: NodeId, ext: NodeId) returns (b: Arena)
    requires target in a && ext in a
    ensures b == Extend(a, target, ext)
  {
    b := a;
    var todo := a[ext].locals.Keys;
    ghost var done: set<string> := {};
    StagedStart(a, target, ext);
    while todo != {}
      invariant todo <= a[ext].locals.Keys
      invariant done == a[ext].locals.Keys - todo
      invariant b == Staged(a, target, ext, done, Listed(Restrict(a[ext].locals, done)))
      decreases todo
    {
      var name :| name in todo;
      b := ExtendName(a, target, ext, done, name, b);
      todo := todo - {name};
      done := done + {name};
    }
    StagedEnd(a, target, ext, done, Listed(Restrict(a[ext].locals, done)));
  }

  /** Running the transform a second time with the same extension module
      changes nothing: the bindings it stores are already there, and the
      objects it would adopt are no longer owned by the extension. */
  lemma ExtendIdempotent(a: Arena, target: NodeId, ext: NodeId)
    requires target in a && ext in a
    ensures Extend(Extend(a, target, ext), target, ext) == Extend(a, target, ext)
  {
    var b := Extend(a, target, ext);
    var c := Extend(b, target, ext);
    assert c.Keys == b.Keys;
    forall id | id in b
      ensures c[id] == b[id]
    {
      assert c[id].locals == b[id].locals by {
        if id == target {
          assert c[id].locals.Keys == b[id].locals.Keys;
        }
      }
    }
  }

  /** The transform applied with the target as its own extension module
      leaves the arena as it is. */
  lemma ExtendSelf(a: Arena, target: NodeId)
    requires target in a
    ensures Extend(a, target, target) == a
  {
  }

  /** The transform keeps the arena free of dangling references: the owners
      it assigns and the bindings it copies are nodes of the arena. */
  lemma ExtendWellFormed(a: Arena, target: NodeId, ext: NodeId)
    requires target in a && ext in a
    requires WellFormed(a)
    ensures WellFormed(Extend(a, target, ext))
  {
  }

  /** The registered transform is idempotent too: the guard still holds
      after it has fired, since the transform renames nothing. */
  lemma FireIdempotent(a: Arena, id: NodeId, moduleName: string, ext: NodeId)
    requires id in a && ext in a
    ensures Fire(Fire(a, id, moduleName, ext), id, moduleName, ext) == Fire(a, id, moduleName, ext)
  {
    if Matches(a, id, moduleName) {
      ExtendIdempotent(a, id, ext);
    }
  }
}
