# astroid module extender, in Dafny

This project models the one piece of real logic in astroid's package entry
point, `astroid/__init__.py`. It covers two things:

- **The module-extender transform.** `register_module_extender(manager,
  module_name, get_extension_mod)` registers a transform with the manager.
  When the manager builds a `Module` node named `module_name`, the transform
  copies every `name -> objs` binding of an extension module's `locals` into
  the module's `locals`, overwriting any binding of the same name. Each copied
  object whose `parent` is the extension module is then re-parented to the
  module. Brain plugins use this to add to a module symbols that cannot be
  inferred from its source.
- **The name-context enumeration** `Context` with the members `Load`,
  `Store` and `Del`.

The node graph is an arena, `map<NodeId, Node>`. Each `Node` has a node class
(`Module` or another class), a `name`, an owner index (`parent`) and a symbol
table `locals: map<string, seq<NodeId>>`. Python's object identity
(`obj.parent is extension_module`) becomes equality of ids.

Files:
- `optional.dfy`: module `Optional`, the `Option` datatype.
- `name_context.dfy`: module `NameContext`, the `Context` enumeration. It has
  the names, the values and by-value and by-name lookup of Python's
  functional enum API.
- `node_graph.dfy`: module `NodeGraph`, the arena, its well-formedness and
  the set of ids a symbol table lists.
- `module_extender.dfy`: module `ModuleExtender`. `Extend` is a declarative
  arena-to-arena definition of the transform. `RunExtender` is the source's
  nested loop, which takes the extension's names in any order, and is proved
  equal to `Extend`. `Fire` is the registration guard. There are lemmas for
  idempotence, well-formedness and the self-extension edge case.

Only objects whose `parent` is the extension module itself are re-parented
(astroid/__init__.py:119). A listed object owned by any other node keeps its
owner, and the model does the same.

## Model

| member | source | states |
|---|---|---|
| NameContext.Name | astroid/__init__.py:51-54 | every member's name is one of the three names in the enum's names string |
| NameContext.Value | astroid/__init__.py:51-54 | a member's value is its 1-based position among the names `Load Store Del`, and the name at that position is the member's own name |
| NameContext.FromValue | astroid/__init__.py:51-54 | lookup by value succeeds exactly for 1, 2 and 3, and gives the member with that value; any other value is an error |
| NameContext.FromName | astroid/__init__.py:51-54 | lookup by name succeeds exactly for `Load`, `Store` and `Del`, and gives the member with that name; any other name is an error |
| NameContext.ValueRoundTrip | astroid/__init__.py:51-54 | looking a member up by its own value gives that member back |
| NameContext.NameRoundTrip | astroid/__init__.py:51-54 | looking a member up by its own name gives that member back |
| NameContext.ExactlyThreeMembers | astroid/__init__.py:51-54 | there are exactly three members, pairwise distinct in identity, name and value |
| ModuleExtender.Bind | astroid/__init__.py:117 | storing `objs` under `name` in the target's locals binds `name` to `objs` whether or not it was bound, keeps every other binding, keeps the target's class, name and owner, and changes no other node |
| ModuleExtender.Adopt | astroid/__init__.py:119-120 | an object owned by the extension module becomes owned by the target, keeping its class, name and locals; an object owned by anything else, and every other node, is unchanged |
| ModuleExtender.Extend | astroid/__init__.py:114-120 | the target binds every extension name exactly as the extension does. Its other names keep their binding and no new names appear. Every listed object owned by the extension is owned by the target afterwards. Listed objects owned elsewhere, and unlisted nodes, keep their owner. Only the target's locals change, and the extension's locals are only read |
| ModuleExtender.AdoptAll | astroid/__init__.py:118-120 | the inner loop over one binding's objects re-parents exactly the extension-owned objects of that binding |
| ModuleExtender.ExtendName | astroid/__init__.py:116-120 | one round of the outer loop stores one extension binding in the target and adopts its extension-owned objects |
| ModuleExtender.RunExtender | astroid/__init__.py:114-120 | the source's nested loop, with the extension's names taken in any order, ends in exactly the arena `Extend` describes, so the outcome does not depend on the iteration order |
| ModuleExtender.Fire | astroid/__init__.py:122 | the registered transform fires only on a `Module` node whose name equals the registered module name; any other node leaves the arena completely unchanged |
| ModuleExtender.ExtendIdempotent | astroid/__init__.py:116-120 | applying the transform twice with the same extension module gives the same arena as applying it once |
| ModuleExtender.FireIdempotent | astroid/__init__.py:113-122 | firing the registered transform twice on the same node gives the same arena as firing it once |
| ModuleExtender.ExtendSelf | astroid/__init__.py:116-120 | a module extended with itself is left unchanged: the overwrites store what is already there, and re-parenting to the extension keeps the same owner |
| ModuleExtender.ExtendWellFormed | astroid/__init__.py:116-120 | the transform creates no dangling references: every owner it assigns and every id it copies is a node of the arena |

## Left out

- Brain plugin discovery (astroid/__init__.py:126-129) is left out. It lists a directory and imports modules dynamically, which is filesystem I/O and dynamic import.
- The re-exported imports (astroid/__init__.py:49, 62-104) and the `MANAGER` construction (astroid/__init__.py:107-110) are left out. They only wire together modules that are not part of this model.
- The internals of `manager.register_transform` are not part of this model. They decide when and in which order registered transforms run. The registration is modelled only as "apply the transform to a node when its class is `Module` and the guard holds" (`Fire`).
- The `get_extension_mod` callback is not called. It builds a module from source, so it is replaced by an extension-module node already in the arena. The callback is called again every time the transform fires (astroid/__init__.py:115), so nothing guarantees the same module each time. Idempotence is stated for one fixed extension module.
- Python list aliasing is not modelled. `node.locals[name] = objs` shares the list object between the two modules, and binding values are modelled as immutable sequences.
- The insertion order of a dict's keys is not modelled, because symbol tables are maps. `RunExtender` shows that the transform's outcome does not depend on the order in which the names are visited.
- Node children lists are not modelled. The transform reads and writes only `locals` and `parent`, so it does not add adopted objects to the target's children.
- The extension's `locals` is read once, before the loop in `RunExtender`, where the source reads it live while iterating. The two agree, because the only binding the loop can overwrite in the extension is one it stores with its existing value, when the target is the extension itself.
- Ids listed in the extension's locals that are not nodes of the arena are skipped by `Adopt`. The Python object graph cannot hold such ids.
