# Mapper<T1,T2>: a Dafny model of the builder's bookkeeping

`Mapper<T1,T2>` (Mapper/Mapper.cs) builds an object-to-object mapping at run
time. The caller binds source members to destination members with accessor
lambdas (`mapper.Bind(s => s.FirstName, d => d.GivenName)`). `Build` then
generates the C# text of a class `Mapper.Mapping`, compiles it with Roslyn
against the assemblies the bound types come from, and loads it.

This project models the plain logic around the compiler. There are five parts:

- **accessor resolver** (`Accessor`, `Mapper.FromLambdaExpression`): the
  `while (!done)` walk over the expression tree. It peels `Convert` and
  `Lambda` nodes. The first member-access or call node becomes the terminal
  member, each later one is put in front of a dotted path, and the root type
  is the last ReflectedType seen, or the parameter's type when the walk
  reaches the parameter.
- **binding table** (`Bindings`, `Mapper.Bind`): `_mappings` is a field
  `mappings: seq<Binding>`. `Member` has no `Equals`/`GetHashCode`, so the
  dictionary compares keys by reference. Every successful `Bind` therefore adds
  a fresh entry, and with no removals the dictionary enumerates in insertion
  order. A sequence keeps both facts.
- **source generator** (`Generator`, `Mapper.GenerateSourceCode`): a fixed
  header naming both types, one `t2.<dest> = t1.<src>;\r\n` line per entry,
  and a fixed footer.
- **parent types** (`TypeModel`, `Mapper.GetParentTypes`): the interfaces of a
  type, then its base chain. This runs over a table of types, each with a base,
  its interfaces and its assembly location.
- **location collection** (`Dependencies`, `Mapper.GetMetadataFileReferences`):
  the contains-then-add loop that fills the `paths` dictionary with the
  assembly locations of every root type and of its parent types.

The methods of class `MapperBuilder.Mapper` follow the C# code statement by
statement, with two exceptions. The per-side block of
`GetMetadataFileReferences` (lines 180-191) is its own method,
`AddRootAndParents`, called once for the key and once for the value. `Build`
calls `GetMetadataFileReferences` itself and hands the code and references to
its `compile` parameter, where the C# goes through `BuildAssembly`. The methods
are proved equal to functions (`Resolve`, `SourceCode`,
`ParentTypes`, `Collect`). The lemmas then state what those functions mean,
using independent descriptions: the hop list and stop node of an expression,
the base-chain conditions, and the set of locations the table needs.

C# `null` is `None`. The exceptions the code can raise are `Err` values:
NullReferenceException is `NullReference` and ArgumentNullException is
`ArgumentNull`.

Four behaviours of the code the model keeps:

- **Unresolved source.** An accessor that does not resolve returns `null`. A
  null source then makes `Dictionary.Add` throw ArgumentNullException, so the
  entry is not stored. Only a null destination is stored.
- **Null destination at build time.** Such an entry is not skipped.
  `GenerateSourceCode` throws NullReferenceException when it reads
  `mapping.Value.MemberInfo` (Mapper/Mapper.cs:141). `GetMetadataFileReferences`
  would throw as well, at line 193.
- **Root type.** The root type is overwritten at every member or call node
  (lines 82 and 95), not only at the first one. So when the walk stops at a
  node that is not a parameter, the root is the ReflectedType of the innermost
  hop.
- **Static member.** A static member or method (null receiver) makes the next
  iteration throw NullReferenceException at line 64.

## Model

| member | source | states |
|---|---|---|
| `MapperBuilder.Mapper.FromLambdaExpression` | Mapper/Mapper.cs:54-116 | the loop returns exactly what the walk `Resolve` gives, including the NullReferenceException on a static member and `null` when no member was found |
| `Accessor.WalkVisitsHops` | Mapper/Mapper.cs:62-109 | from any state, the walk visits exactly the member/call nodes of the expression, outermost first, and ends at its stop node: a parameter overrides the root type, another node shape leaves the state, a null receiver throws |
| `Accessor.VisitAfterTerminal` | Mapper/Mapper.cs:74-82 | once a terminal member is recorded, each later hop puts its name in front of the path with a single dot, so the path is the visited names in reverse (root-first) order; the root is the last hop's ReflectedType |
| `Accessor.PrependJoin` | Mapper/Mapper.cs:80 | the step that puts a hop name in front of the path, with a dot only when the path is not empty, joins one more identifier in front with a single dot |
| `Accessor.ResolveByHops` | Mapper/Mapper.cs:62-115 | result without the loop: a static member throws; no member/call node gives null; otherwise terminal = outermost hop, path = the other hops' names joined root-first, root = the parameter's type if reached, else the innermost hop's ReflectedType |
| `Accessor.ChainedAccessor` | Mapper/Mapper.cs:72-84 | for `p => p.h1...hn`, the terminal member is `hn`, the path is `h1...h(n-1)` joined by dots and the root is the type of `p`, whatever the hops' ReflectedTypes |
| `Accessor.ChainedPathSegments` | Mapper/Mapper.cs:80 | that path splits at its dots into exactly the names `h1...h(n-1)`: n - 1 segments, none empty, so no leading, trailing or doubled dot |
| `Accessor.SegmentsOfJoin` | Mapper/Mapper.cs:93 | any path joined from identifiers splits back into those identifiers, and the empty path has no segments |
| `Accessor.SingleHopAccessor` | Mapper/Mapper.cs:98-113 | `p => p.F`, bare or wrapped in a Convert, resolves to member `F`, path `""` and root the type of `p` |
| `Accessor.CallLikeMemberAccess` | Mapper/Mapper.cs:85-97 | from any state, turning every call node into a member-access node with the same member changes nothing the walk computes |
| `Accessor.CallsResolveLikeAccesses` | Mapper/Mapper.cs:72-97 | so a call resolves exactly like a member access: same terminal member, path, root and failures |
| `Accessor.WrappersTransparent` | Mapper/Mapper.cs:66-71 | from any state, removing every Convert and Lambda node, at any depth, changes nothing the walk computes |
| `Accessor.WrappersDoNotChangeResolution` | Mapper/Mapper.cs:66-70 | unwrapping never changes the terminal member, the path, the root type or the failure; one extra Convert or Lambda around an accessor is invisible |
| `MapperBuilder.Mapper.constructor` | Mapper/Mapper.cs:51-53 | a new builder has an empty binding table |
| `MapperBuilder.Mapper.Bind` | Mapper/Mapper.cs:244-250 | on success exactly one entry (source, destination) is added after all earlier ones, which stay as they were, and the same builder is returned; an exception from either resolution, or a null source (ArgumentNullException), leaves the table unchanged; a null destination is stored |
| `MapperBuilder.Mapper.GenerateSourceCode` | Mapper/Mapper.cs:118-149 | the output is the header naming T1 and T2, then one assignment line per entry in table order, then the footer; a null destination throws NullReferenceException |
| `Generator.AssignmentsAppend` | Mapper/Mapper.cs:139-142 | the assignment lines of a concatenated table are those of the first part followed by those of the second: order is preserved |
| `Generator.AppendedBindingIsLastLine` | Mapper/Mapper.cs:139-142 | after one more entry the generated program gains exactly that entry's line, between the earlier lines and the footer |
| `Generator.OnlyNamesMatter` | Mapper/Mapper.cs:141 | the assignment lines depend only on the terminal member names of each entry, never on paths or root types |
| `Generator.PathNeverUsed` | Mapper/Mapper.cs:122-148 | two tables with the same terminal names at each position generate the same text, or fail alike: `Path` is never used |
| `Generator.PersonExample` | MapperPrototype/Program.cs:32-33 | the example bindings FirstName to GivenName and LastName to Surname generate exactly those two assignments, in that order |
| `MapperBuilder.PersonMapping` | MapperPrototype/Program.cs:31-34 | the example's chained `Bind` calls on one builder, then generation, produce that program |
| `MapperBuilder.Mapper.GetParentTypes` | Mapper/Mapper.cs:151-172 | yields nothing for a null type or a type without a base, otherwise the interfaces, then the base chain |
| `TypeModel.BaseChainIsTheChain` | Mapper/Mapper.cs:165-171 | the base chain starts at the immediate base and follows each type's base to the type without a base; it is the only sequence that does so |
| `TypeModel.BaseChainDecreasing` | Mapper/Mapper.cs:166-171 | the chain climbs strictly towards the root of the hierarchy, so each ancestor appears exactly once |
| `MapperBuilder.Mapper.AddRootAndParents` | Mapper/Mapper.cs:180-191 | the contains-then-add block for one side adds the root type's location, then the location of each parent type, in that order |
| `Dependencies.AddLocationsSpec` | Mapper/Mapper.cs:185-191 | the contains-then-add loop keeps the keys already there, in place, adds no duplicate, and ends with exactly the old keys plus the types' locations |
| `Dependencies.AddSideSpec` | Mapper/Mapper.cs:180-191 | one side adds exactly the locations of the root type and of all its parent types, each once |
| `Dependencies.CollectFailsOnNull` | Mapper/Mapper.cs:193 | the collection throws NullReferenceException exactly when some destination is null |
| `Dependencies.CollectSpec` | Mapper/Mapper.cs:176-205 | on success, starting from any duplicate-free `paths`, the result keeps those keys in place, has no duplicates, and holds a location exactly when it was there before or some entry's key or value side brings it |
| `Dependencies.CollectedLocations` | Mapper/Mapper.cs:176-205 | from an empty dictionary, `paths` holds the location of every key and value root type and of every parent type of those, nothing else, each once |
| `MapperBuilder.Mapper.GetMetadataFileReferences` | Mapper/Mapper.cs:173-222 | the references are the collected locations in insertion order, followed by the host assemblies' references |
| `MapperBuilder.Mapper.Build` | Mapper/Mapper.cs:252-269 | a null destination throws before compiling; otherwise the generated program is compiled against the collected references, and the result is the loaded mapping if compiling succeeds and `null` if it fails |

## Left out

- BuildAssembly (Mapper/Mapper.cs:223-243) is left out: parsing, compiling, emitting to a MemoryStream and `Assembly.Load` are calls into Roslyn and the runtime. `Build` takes a `compile` function that says whether emitting succeeds, and keeps its diagnostics out just as the code discards them.
- Build: it assumes that a successful compilation always gives a loadable assembly. It also assumes that `assembly.GetType("Mapper.Mapping")` finds the type and `Activator.CreateInstance` returns it. The generated text always declares that type, so the two `null` checks (lines 258-265) are not modelled.
- GetMetadataFileReferences: the references of the entry and executing assemblies (lines 213-219) depend on the running process. They are the parameter `hostReferences` and are appended without deduplication, as in the code. So the final list is not claimed to be free of duplicates.
- GetMetadataFileReferences: a MetadataReference is modelled as the file path it was created from (line 210).
- `IMapping.Map` (lines 9-12) is left out. It exists only in the generated, compiled text.
- GetParentTypes: the C# iterator is lazy, and the model builds the same sequence eagerly. Nothing consumes it partially.
- Reflection is a table of types. The type ids are numbered so that a base type has a smaller id than every type derived from it; this numbering is the acyclicity witness. Only the base type, the interfaces and the assembly location of a type are represented.
- GetMetadataFileReferences, Build: these require every root type in the table to be known to the type table. In the code every Type has an assembly.
- A MemberInfo is represented by its name and its ReflectedType only. Member names are identifiers: non-empty and without a dot. The ReflectedType is always present, so the case of line 111 where the root type is null after a member was found cannot arise in the model.
- FromLambdaExpression, Bind: the accessor argument is required to be a lambda node, as at every call site in the code. A null accessor (`Bind(null, ...)`), which would throw NullReferenceException at line 64, is not modelled.
- The arguments of a method call node are not represented, because the walk never looks at them. Every node shape other than Convert, Lambda, MemberAccess, Call and Parameter is the one constructor `Other`.
- The type arguments T1 and T2 are the builder's two full type names, given to its constructor. The static typing of the accessor lambdas is not modelled.
- The line breaks inside the header and footer are single line feeds, as in Mapper/Mapper.cs. Each assignment line ends in `\r\n`, as written in the code.
- Concurrent `Bind` calls are not modelled; the builder is single-threaded.
- MapperPrototype/Program.cs is used only as the concrete example input. Its console output is not part of this model.
