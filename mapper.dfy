/**
 * The builder `Mapper<T1,T2>`: the binding table it fills through Bind, and
 * the steps of Build that read that table.
 */
module MapperBuilder {
  import opened Wrappers
  import opened TypeModel
  import opened Accessor
  import opened Bindings
  import opened Generator
  import opened Dependencies

  /**
   * What a successful Build hands back: the `Mapper.Mapping` instance loaded
   * from the assembly compiled from `code` against `references`.
   */
  datatype CompiledMapping = CompiledMapping(code: string, references: seq<string>)

  class Mapper {
    /** typeof(T1).FullName, the source type. */
    const sourceTypeName: string
    /** typeof(T2).FullName, the destination type. */
    const destinationTypeName: string
    /** `_mappings`: with no removals, a Dictionary enumerates in insertion order. */
    var mappings: seq<Binding>

    constructor (sourceTypeName: string, destinationTypeName: string)
      ensures this.sourceTypeName == sourceTypeName
      ensures this.destinationTypeName == destinationTypeName
      ensures mappings == []
    {
      this.sourceTypeName := sourceTypeName;
      this.destinationTypeName := destinationTypeName;
      mappings := [];
    }

    /** The accessor resolver's `while (!done)` loop over the expression tree. */
    static method FromLambdaExpression(expression: Expr) returns (r: Result<Option<Member>>)
      requires expression.Lambda?
      ensures r == Resolve(expression)
    {
      var expressionToCheck: Option<Expr> := Some(expression);
      var done := false;
      var path := "";
      var memberInfo: Option<MemberInfo> := None;
      var rootType: Option<TypeId> := None;
      while !done
        invariant !done ==>
                    Walk(expressionToCheck, WalkState(path, memberInfo, rootType)) == Walk(Some(expression), Start)
        invariant done ==> Walk(Some(expression), Start) == Ok(WalkState(path, memberInfo, rootType))
        decreases if done then 0 else 1 + OptSize(expressionToCheck)
      {
        if expressionToCheck.None? {
          // reading the node type of a null receiver throws
          return Err(NullReference);
        }
        match expressionToCheck.value
        case Convert(operand) =>
          expressionToCheck := Some(operand);
        case Lambda(body) =>
          expressionToCheck := Some(body);
        case MemberAccess(member, receiver) =>
          if memberInfo.None? {
            memberInfo := Some(member);
          } else {
            path := member.name + (if path == "" then "" else ".") + path;
          }
          rootType := Some(member.reflectedType);
          expressionToCheck := receiver;
        case Call(methodInfo, receiver) =>
          if memberInfo.None? {
            memberInfo := Some(methodInfo);
          } else {
            path := methodInfo.name + (if path == "" then "" else ".") + path;
          }
          rootType := Some(methodInfo.reflectedType);
          expressionToCheck := receiver;
        case Parameter(t) =>
          rootType := Some(t);
          done := true;
        case Other =>
          done := true;
      }
      if memberInfo.Some? && rootType.Some? {
        return Ok(Some(Member(memberInfo.value, rootType.value, path)));
      }
      return Ok(None);
    }

    /**
     * Resolves both accessors and adds one entry after all existing ones. An
     * exception from either resolution leaves the table as it was, and so
     * does a null source, which Dictionary.Add rejects with
     * ArgumentNullException; a null destination is stored as it is.
     */
    method Bind(t1: Expr, t2: Expr) returns (r: Result<Mapper>)
      requires t1.Lambda? && t2.Lambda?
      modifies this
      ensures Resolve(t1).Err? ==> r == Err(Resolve(t1).error) && mappings == old(mappings)
      ensures Resolve(t1).Ok? && Resolve(t2).Err? ==> r == Err(Resolve(t2).error) && mappings == old(mappings)
      ensures Resolve(t1) == Ok(None) && Resolve(t2).Ok? ==> r == Err(ArgumentNull) && mappings == old(mappings)
      ensures Resolve(t1).Ok? && Resolve(t1).value.Some? && Resolve(t2).Ok? ==>
                && r == Ok(this)
                && mappings == old(mappings) + [(Resolve(t1).value.value, Resolve(t2).value)]
    {
      var member1 := FromLambdaExpression(t1);
      if member1.Err? {
        return Err(member1.error);
      }
      var member2 := FromLambdaExpression(t2);
      if member2.Err? {
        return Err(member2.error);
      }
      if member1.value.None? {
        return Err(ArgumentNull);
      }
      mappings := mappings + [(member1.value.value, member2.value)];
      return Ok(this);
    }

    /** Appends the header, one assignment per entry in table order, and the footer. */
    method GenerateSourceCode() returns (r: Result<string>)
      ensures r == SourceCode(sourceTypeName, destinationTypeName, mappings)
    {
      var sb := Header(sourceTypeName, destinationTypeName);
      for i := 0 to |mappings|
        invariant AllResolved(mappings[..i])
        invariant sb == Header(sourceTypeName, destinationTypeName) + Assignments(mappings[..i])
      {
        var (key, value) := mappings[i];
        if value.None? {
          // reading the member of a null destination throws
          return Err(NullReference);
        }
        assert mappings[..i + 1][..i] == mappings[..i];
        sb := sb + Assignment(key, value.value);
      }
      assert mappings[..|mappings|] == mappings;
      sb := sb + Footer;
      return Ok(sb);
    }

    /** The interfaces of `ty`, then its base types from the nearest up, for a type that has a base. */
    static method GetParentTypes(types: TypeTable, ty: Option<TypeId>) returns (parents: seq<TypeId>)
      requires ValidTable(types) && (ty.Some? ==> ty.value in types)
      ensures parents == ParentTypes(types, ty)
    {
      parents := [];
      if ty.None? || types[ty.value].baseType.None? {
        return;
      }
      var interfaces := types[ty.value].interfaces;
      for i := 0 to |interfaces|
        invariant parents == interfaces[..i]
      {
        parents := parents + [interfaces[i]];
      }
      assert interfaces[..|interfaces|] == interfaces;
      var currentBaseType := types[ty.value].baseType;
      while currentBaseType.Some?
        invariant currentBaseType.Some? ==> currentBaseType.value in types
        invariant parents + (if currentBaseType.Some? then BaseChain(types, currentBaseType.value) else [])
                  == ParentTypes(types, ty)
        decreases if currentBaseType.Some? then currentBaseType.value + 1 else 0
      {
        var current := currentBaseType.value;
        assert BaseChain(types, current) ==
                 [current] + (if types[current].baseType.Some? then BaseChain(types, types[current].baseType.value) else []);
        parents := parents + [current];
        currentBaseType := types[current].baseType;
      }
    }

    /**
     * The block GetMetadataFileReferences runs for each side of an entry:
     * add the root type's location unless present, then likewise the
     * location of each type GetParentTypes yields.
     */
    static method AddRootAndParents(types: TypeTable, paths: seq<string>, root: TypeId) returns (result: seq<string>)
      requires ValidTable(types) && root in types
      ensures result == AddSide(types, paths, root)
    {
      result := paths;
      if types[root].location !in result {
        result := result + [types[root].location];
      }
      var parents := GetParentTypes(types, Some(root));
      ghost var start := result;
      for j := 0 to |parents|
        invariant AddLocations(types, result, parents[j..]) == AddLocations(types, start, parents)
      {
        assert parents[j..][0] == parents[j] && parents[j..][1..] == parents[j + 1..];
        if types[parents[j]].location !in result {
          result := result + [types[parents[j]].location];
        }
      }
    }

    /**
     * The `paths` dictionary filled entry by entry, its values turned into
     * references, then the references of the host assemblies appended
     * (`hostReferences`, without deduplication).
     */
    method GetMetadataFileReferences(types: TypeTable, hostReferences: seq<string>) returns (r: Result<seq<string>>)
      requires ValidTable(types) && RootsKnown(types, mappings)
      ensures r == match Collect(types, [], mappings)
                   case Ok(paths) => Ok(paths + hostReferences)
                   case Err(e) => Err(e)
    {
      var paths: seq<string> := [];
      for i := 0 to |mappings|
        invariant RootsKnown(types, mappings[i..])
        invariant Collect(types, paths, mappings[i..]) == Collect(types, [], mappings)
      {
        var rest := mappings[i..];
        assert rest[0] == mappings[i] && rest[1..] == mappings[i + 1..];
        RequiredCons(types, rest);
        var (key, value) := mappings[i];
        paths := AddRootAndParents(types, paths, key.rootType);
        if value.None? {
          // reading the root type of a null destination throws
          return Err(NullReference);
        }
        paths := AddRootAndParents(types, paths, value.value.rootType);
      }
      var references: seq<string> := [];
      for k := 0 to |paths|
        invariant references == paths[..k]
      {
        references := references + [paths[k]];
      }
      assert paths[..|paths|] == paths;
      return Ok(references + hostReferences);
    }

    /**
     * Generates the program, gathers the references and compiles; `compile`
     * stands for the compiler and says whether emitting succeeded. A null
     * destination makes the generation throw before anything is compiled.
     */
    method Build(types: TypeTable, hostReferences: seq<string>, compile: (string, seq<string>) -> bool)
      returns (r: Result<Option<CompiledMapping>>)
      requires ValidTable(types) && RootsKnown(types, mappings)
      ensures !AllResolved(mappings) ==> r == Err(NullReference)
      ensures AllResolved(mappings) ==>
                && Collect(types, [], mappings).Ok?
                && var code := Header(sourceTypeName, destinationTypeName) + Assignments(mappings) + Footer;
                   var references := Collect(types, [], mappings).value + hostReferences;
                   r == if compile(code, references) then Ok(Some(CompiledMapping(code, references))) else Ok(None)
    {
      var code := GenerateSourceCode();
      if code.Err? {
        return Err(code.error);
      }
      CollectFailsOnNull(types, [], mappings);
      var references := GetMetadataFileReferences(types, hostReferences);
      if compile(code.value, references.value) {
        return Ok(Some(CompiledMapping(code.value, references.value)));
      }
      return Ok(None);
    }
  }

  /**
   * The example program's use of the builder: `new Mapper<Person,PersonDto>()`,
   * then `.Bind(s => s.FirstName, d => d.GivenName).Bind(s => s.LastName, d => d.Surname)`
   * on the builder each Bind returns, then the program Build would compile.
   */
  method PersonMapping() returns (code: Result<string>)
    ensures code == Ok(Header("MapperPrototype.Person", "MapperPrototype.PersonDto")
                       + (("t2." + "GivenName" + " = t1." + "FirstName" + ";\r\n")
                          + ("t2." + "Surname" + " = t1." + "LastName" + ";\r\n"))
                       + Footer)
  {
    var person, dto := 1, 2;
    var firstName, lastName := MemberInfo("FirstName", person), MemberInfo("LastName", person);
    var givenName, surname := MemberInfo("GivenName", dto), MemberInfo("Surname", dto);
    SingleHopAccessor(person, firstName);
    SingleHopAccessor(person, lastName);
    SingleHopAccessor(dto, givenName);
    SingleHopAccessor(dto, surname);
    var mapper := new Mapper("MapperPrototype.Person", "MapperPrototype.PersonDto");
    var bound := mapper.Bind(Lambda(MemberAccess(firstName, Some(Parameter(person)))),
                             Lambda(MemberAccess(givenName, Some(Parameter(dto)))));
    bound := bound.value.Bind(Lambda(MemberAccess(lastName, Some(Parameter(person)))),
                              Lambda(MemberAccess(surname, Some(Parameter(dto)))));
    assert mapper.mappings == PersonTable();
    code := mapper.GenerateSourceCode();
    PersonExample();
  }
}
