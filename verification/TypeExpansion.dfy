/** The query tool's expansion of a type into its members, through structs that may contain each other. */
module TypeExpansion {
  import opened Wrappers
  import opened TypeSyntax
  import opened Text
  import TypeSpelling
  import NumericLiterals

  datatype Field = Field(name: string, ty: TypeNode)

  datatype NamedType = NamedType(name: string, qualifiedName: string, fields: seq<Field>)

  datatype Kind =
    | UnknownKind | ConstKind | TupleKind | PointerKind | IndexableKind | ArrayKind | FuncPtrKind | DynKind | AnyKind
    | StructKind | BuiltinKind | NamedKind | AppliedKind

  datatype TypeInfo =
    TypeInfo(spelling: string, kind: Kind, resolved: Option<string>, recursive: bool, hasMembers: bool,
             members: seq<Member>)

  datatype Member = Member(name: string, qualifiedName: string, ty: string, info: TypeInfo)

  // ---------------------------------------------------------------------------------------------
  // Which struct a type names
  // ---------------------------------------------------------------------------------------------

  const BUILTINS: seq<string> :=
    ["u8", "i8", "u16", "i16", "u32", "i32", "u64", "i64", "usize", "int", "uint", "f32", "f64", "bool", "void", "any"]

  /** Whatever a literal can be suffixed with is a builtin name. */
  lemma SuffixesAreBuiltin(k: nat)
    requires k < |NumericLiterals.SUFFIXES|
    ensures NumericLiterals.SUFFIXES[k].0 in BUILTINS
  {
    assert BUILTINS[0] == "u8" && BUILTINS[1] == "i8" && BUILTINS[2] == "u16" && BUILTINS[3] == "i16";
    assert BUILTINS[4] == "u32" && BUILTINS[5] == "i32" && BUILTINS[6] == "u64" && BUILTINS[7] == "i64";
    assert BUILTINS[8] == "usize" && BUILTINS[9] == "int" && BUILTINS[10] == "uint";
    assert BUILTINS[11] == "f32" && BUILTINS[12] == "f64";
  }

  function PeelConst(node: TypeNode): TypeNode {
    if node.ConstNode? then PeelConst(node.base) else node
  }

  lemma {:induction false} PeelConstSmaller(node: TypeNode)
    ensures PeelConst(node) == node || PeelConst(node) < node
    ensures !PeelConst(node).ConstNode?
  {
    if node.ConstNode? {
      PeelConstSmaller(node.base);
    }
  }

  /** The name at the root of a named or applied type. */
  function RootName(node: TypeNode): Option<string> {
    PeelConstSmaller(node);
    var current := PeelConst(node);
    if current.BaseNode? then Some(current.name)
    else if current.AppliedNode? then RootName(current.base)
    else None
  }

  predicate IsQualified(types: seq<NamedType>, name: string, i: nat) {
    i < |types| && types[i].qualifiedName == name
  }

  /** The first type with the qualified name. */
  ghost predicate IsFirstQualified(types: seq<NamedType>, name: string, r: Option<nat>) {
    match r
    case Some(i) => IsQualified(types, name, i) && forall j: nat :: j < i ==> !IsQualified(types, name, j)
    case None => forall j: nat :: !IsQualified(types, name, j)
  }

  function Find(types: seq<NamedType>, name: string): Option<nat> {
    if types == [] then None
    else
      var before := Find(types[..|types| - 1], name);
      if before.Some? then before
      else if types[|types| - 1].qualifiedName == name then Some(|types| - 1) else None
  }

  lemma {:induction false} FindIsFirst(types: seq<NamedType>, name: string)
    ensures IsFirstQualified(types, name, Find(types, name))
  {
    if types != [] {
      var n := |types| - 1;
      FindIsFirst(types[..n], name);
      forall j: nat | j < n ensures IsQualified(types, name, j) == IsQualified(types[..n], name, j) {
      }
    }
  }

  method FindNamedTypeByQualifiedName(types: seq<NamedType>, name: string) returns (r: Option<nat>)
    ensures r == Find(types, name)
  {
    for i := 0 to |types|
      invariant Find(types[..i], name).None?
    {
      assert types[..i + 1][..i] == types[..i];
      if types[i].qualifiedName == name {
        FindIsFirst(types, name);
        FindIsFirst(types[..i], name);
        forall j: nat | j < i ensures !IsQualified(types, name, j) {
          assert !IsQualified(types[..i], name, j);
        }
        assert IsQualified(types, name, i);
        return Some(i);
      }
    }
    assert types[..|types|] == types;
    r := None;
  }

  function Named(types: seq<NamedType>, name: string): seq<nat> {
    if types == [] then []
    else
      var n := |types| - 1;
      Named(types[..n], name) + (if types[n].name == name then [n] else [])
  }

  /** The type with the simple name, when there is exactly one. */
  function FindUnique(types: seq<NamedType>, name: string): Option<nat> {
    if |Named(types, name)| == 1 then Some(Named(types, name)[0]) else None
  }

  lemma {:induction false} NamedAreNamed(types: seq<NamedType>, name: string)
    ensures forall i <- Named(types, name) :: i < |types| && types[i].name == name
    ensures forall i: nat :: i < |types| && types[i].name == name ==> i in Named(types, name)
  {
    if types != [] {
      NamedAreNamed(types[..|types| - 1], name);
    }
  }

  method FindUniqueNamedTypeByName(types: seq<NamedType>, name: string) returns (r: Option<nat>)
    ensures r == FindUnique(types, name)
  {
    r := None;
    for i := 0 to |types|
      invariant |Named(types[..i], name)| <= 1
      invariant r == if Named(types[..i], name) == [] then None else Some(Named(types[..i], name)[0])
    {
      assert types[..i + 1][..i] == types[..i];
      if types[i].name == name {
        if r.Some? {
          NamedGrows(types, i + 1, name);
          return None;
        }
        r := Some(i);
      }
    }
    assert types[..|types|] == types;
  }

  lemma {:induction false} NamedGrows(types: seq<NamedType>, i: nat, name: string)
    requires i <= |types|
    ensures |Named(types[..i], name)| <= |Named(types, name)|
    decreases |types| - i
  {
    if i == |types| {
      assert types[..i] == types;
    } else {
      assert types[..i + 1][..i] == types[..i];
      NamedGrows(types, i + 1, name);
    }
  }

  function LastDot(s: string): Option<nat> {
    if s == "" then None
    else if s[|s| - 1] == '.' then Some(|s| - 1)
    else LastDot(s[..|s| - 1])
  }

  lemma {:induction false} LastDotIsDot(s: string)
    ensures LastDot(s).Some? ==> LastDot(s).value < |s| && s[LastDot(s).value] == '.'
    ensures forall j :: 0 <= j < |s| && (LastDot(s).Some? ==> LastDot(s).value < j) ==> s[j] != '.'
  {
    if s != "" && s[|s| - 1] != '.' {
      LastDotIsDot(s[..|s| - 1]);
    }
  }

  /** Looking a simple name up in the enclosing scopes, innermost first. */
  function InScopes(types: seq<NamedType>, scope: string, name: string): Option<nat>
    decreases |scope|
  {
    if scope == "" then None
    else if Find(types, scope + "." + name).Some? then Find(types, scope + "." + name)
    else
      LastDotIsDot(scope);
      if LastDot(scope).None? then None else InScopes(types, scope[..LastDot(scope).value], name)
  }

  /** The first k characters are the scope itself or one that encloses it. */
  predicate IsScope(scope: string, k: int) {
    0 < k <= |scope| && (k == |scope| || scope[k] == '.')
  }

  /** The lookup finds the type of the innermost scope that has one. */
  lemma {:induction false} InnermostScopeWins(types: seq<NamedType>, scope: string, name: string)
    ensures match InScopes(types, scope, name)
            case Some(i) =>
              exists k :: IsScope(scope, k) && Find(types, scope[..k] + "." + name) == Some(i)
                       && forall m :: IsScope(scope, m) && m > k ==> Find(types, scope[..m] + "." + name).None?
            case None => forall m :: IsScope(scope, m) ==> Find(types, scope[..m] + "." + name).None?
    decreases |scope|
  {
    if scope != "" {
      assert scope[..|scope|] == scope && IsScope(scope, |scope|);
      LastDotIsDot(scope);
      if Find(types, scope + "." + name).None? && LastDot(scope).Some? {
        var d := LastDot(scope).value;
        var outer := scope[..d];
        InnermostScopeWins(types, outer, name);
        forall m | 0 < m <= d ensures scope[..m] == outer[..m] && (IsScope(scope, m) <==> IsScope(outer, m)) {
        }
        forall m | IsScope(scope, m) && m > d ensures m == |scope| {
        }
      }
    }
  }

  /** Builtin names never name a struct; a qualified name is taken literally; a simple one is looked up
      literally, then in the enclosing scopes, then among all simple names. */
  function Resolve(types: seq<NamedType>, node: TypeNode, owner: string): Option<nat> {
    var name := RootName(node);
    if name.None? || name.value == "" || name.value in BUILTINS then None
    else if Find(types, name.value).Some? then Find(types, name.value)
    else if '.' in name.value then None
    else if InScopes(types, owner, name.value).Some? then InScopes(types, owner, name.value)
    else FindUnique(types, name.value)
  }

  ghost predicate HasRecord(types: seq<NamedType>, name: string) {
    exists i: nat :: IsQualified(types, name, i)
  }

  /** The only record with the simple name. */
  ghost predicate IsOnlyNamed(types: seq<NamedType>, name: string, i: nat) {
    i < |types| && types[i].name == name && forall j: nat :: j < |types| && types[j].name == name ==> j == i
  }

  /** What a name means inside `owner`, without reference to any search: its record as a qualified name; for a
      simple name without one the first record of the innermost enclosing scope that has it; and where none
      has it the record that alone has the name. */
  ghost predicate Means(types: seq<NamedType>, name: string, owner: string, r: Option<nat>) {
    if HasRecord(types, name) then r.Some? && IsFirstQualified(types, name, r)
    else if '.' in name then r.None?
    else if exists k :: IsScope(owner, k) && HasRecord(types, owner[..k] + "." + name) then
      exists k :: IsScope(owner, k) && r.Some? && IsFirstQualified(types, owner[..k] + "." + name, r)
                  && forall m :: IsScope(owner, m) && m > k ==> !HasRecord(types, owner[..m] + "." + name)
    else
      match r
      case Some(i) => IsOnlyNamed(types, name, i)
      case None => forall i :: !IsOnlyNamed(types, name, i)
  }

  lemma FindHas(types: seq<NamedType>, name: string)
    ensures Find(types, name).Some? <==> HasRecord(types, name)
    ensures IsFirstQualified(types, name, Find(types, name))
  {
    FindIsFirst(types, name);
  }

  lemma {:induction false} NamedIncreases(types: seq<NamedType>, name: string)
    ensures forall i, j :: 0 <= i < j < |Named(types, name)| ==> Named(types, name)[i] < Named(types, name)[j]
  {
    if types != [] {
      var n, before := |types| - 1, Named(types[..|types| - 1], name);
      NamedIncreases(types[..n], name);
      NamedAreNamed(types[..n], name);
      forall i | 0 <= i < |before| ensures before[i] < n {
        assert before[i] in before;
      }
    }
  }

  lemma FindUniqueIsOnly(types: seq<NamedType>, name: string)
    ensures match FindUnique(types, name)
            case Some(i) => IsOnlyNamed(types, name, i)
            case None => forall i :: !IsOnlyNamed(types, name, i)
  {
    var named := Named(types, name);
    NamedAreNamed(types, name);
    NamedIncreases(types, name);
    if |named| == 1 {
      assert named[0] in named;
    } else if |named| > 1 {
      assert named[0] in named && named[1] in named && named[0] != named[1];
    }
  }

  /** A name that is not built in is resolved to what it means. */
  lemma ResolveIsMeaning(types: seq<NamedType>, node: TypeNode, owner: string)
    requires RootName(node).Some?
    ensures var name := RootName(node).value;
      if name == "" || name in BUILTINS then Resolve(types, node, owner).None?
      else Means(types, name, owner, Resolve(types, node, owner))
  {
    var name := RootName(node).value;
    FindHas(types, name);
    if name != "" && name !in BUILTINS && !HasRecord(types, name) && '.' !in name {
      InnermostScopeWins(types, owner, name);
      forall k | IsScope(owner, k)
        ensures Find(types, owner[..k] + "." + name).Some? <==> HasRecord(types, owner[..k] + "." + name)
        ensures IsFirstQualified(types, owner[..k] + "." + name, Find(types, owner[..k] + "." + name))
      {
        FindHas(types, owner[..k] + "." + name);
      }
      FindUniqueIsOnly(types, name);
    }
  }

  method ResolveNamedTypeRecord(types: seq<NamedType>, node: TypeNode, owner: string) returns (r: Option<nat>)
    ensures r == Resolve(types, node, owner)
  {
    var root := RootName(node);
    if root.None? || root.value == "" || root.value in BUILTINS {
      return None;
    }
    var name := root.value;
    var exact := FindNamedTypeByQualifiedName(types, name);
    if exact.Some? || '.' in name {
      return exact;
    }
    var scope := owner;
    while scope != ""
      invariant InScopes(types, owner, name) == InScopes(types, scope, name)
      decreases |scope|
    {
      var found := FindNamedTypeByQualifiedName(types, scope + "." + name);
      if found.Some? {
        return found;
      }
      LastDotIsDot(scope);
      var separator := LastDot(scope);
      if separator.None? {
        break;
      }
      scope := scope[..separator.value];
    }
    r := FindUniqueNamedTypeByName(types, name);
  }

  lemma {:induction false} FindInRange(types: seq<NamedType>, name: string)
    ensures Find(types, name).Some? ==> Find(types, name).value < |types|
  {
    if types != [] {
      FindInRange(types[..|types| - 1], name);
    }
  }

  lemma {:induction false} InScopesInRange(types: seq<NamedType>, scope: string, name: string)
    ensures InScopes(types, scope, name).Some? ==> InScopes(types, scope, name).value < |types|
    decreases |scope|
  {
    FindInRange(types, scope + "." + name);
    LastDotIsDot(scope);
    if scope != "" && LastDot(scope).Some? {
      InScopesInRange(types, scope[..LastDot(scope).value], name);
    }
  }

  lemma ResolveInRange(types: seq<NamedType>, node: TypeNode, owner: string)
    ensures Resolve(types, node, owner).Some? ==> Resolve(types, node, owner).value < |types|
  {
    var name := RootName(node);
    if name.Some? {
      FindInRange(types, name.value);
      InScopesInRange(types, owner, name.value);
      NamedAreNamed(types, name.value);
      var named := Named(types, name.value);
      assert |named| == 1 ==> named[0] in named;
    }
  }

  // ---------------------------------------------------------------------------------------------
  // Expansion
  // ---------------------------------------------------------------------------------------------

  function Universe(types: seq<NamedType>): set<string> {
    set i | 0 <= i < |types| :: types[i].qualifiedName
  }

  function KindOf(node: TypeNode): Kind {
    match node
    case PointerNode(_, _) => PointerKind
    case IndexableNode(_) => IndexableKind
    case ArrayNode(_, _) => ArrayKind
    case FuncPtrNode(_, _) => FuncPtrKind
    case DynNode(_) => DynKind
    case AnyNode => AnyKind
    case AppliedNode(_, _) =>
      if RootName(node).None? then AppliedKind else if RootName(node).value in BUILTINS then BuiltinKind else NamedKind
    case BaseNode(name) => if name in BUILTINS then BuiltinKind else NamedKind
    case _ => UnknownKind
  }

  function Plain(node: TypeNode, kind: Kind): TypeInfo {
    TypeInfo(TypeSpelling.Print(node), kind, None, false, false, [])
  }

  /** The expansion of a type met on a path through the structs in `path`. */
  function Expand(types: seq<NamedType>, node: TypeNode, owner: string, path: set<string>): TypeInfo
    decreases Universe(types) - path, node, 2
  {
    match node
    case ConstNode(base) => Expand(types, base, owner, path).(spelling := TypeSpelling.Print(node), kind := ConstKind)
    case TupleNode(items) =>
      TypeInfo(TypeSpelling.Print(node), TupleKind, None, false, items != [], ExpandItems(types, items, owner, path))
    case BaseNode(_) => ExpandNamed(types, node, owner, path)
    case AppliedNode(_, _) => ExpandNamed(types, node, owner, path)
    case _ => Plain(node, KindOf(node))
  }

  function ExpandNamed(types: seq<NamedType>, node: TypeNode, owner: string, path: set<string>): TypeInfo
    decreases Universe(types) - path, node, 1
  {
    var resolved := Resolve(types, node, owner);
    if resolved.None? then Plain(node, KindOf(node))
    else
      ResolveInRange(types, node, owner);
      var s := types[resolved.value];
      var name := s.qualifiedName;
      if name in path then TypeInfo(TypeSpelling.Print(node), StructKind, Some(name), true, false, [])
      else
        TypeInfo(TypeSpelling.Print(node), StructKind, Some(name), false, s.fields != [],
                 ExpandFields(types, name, s.fields, path + {name}))
  }

  function ExpandItems(types: seq<NamedType>, items: seq<TypeNode>, owner: string, path: set<string>): seq<Member>
    decreases Universe(types) - path, items, 0
  {
    if items == [] then []
    else
      var n := |items| - 1;
      ExpandItems(types, items[..n], owner, path)
        + [ItemMember(owner, n, items[n], Expand(types, items[n], owner, path))]
  }

  function ExpandFields(types: seq<NamedType>, struct: string, fields: seq<Field>, path: set<string>): seq<Member>
    decreases Universe(types) - path, fields, 3
  {
    if fields == [] then []
    else
      var n := |fields| - 1;
      ExpandFields(types, struct, fields[..n], path)
        + [FieldMember(struct, fields[n], Expand(types, fields[n].ty, struct, path))]
  }

  function ItemMember(owner: string, i: nat, item: TypeNode, info: TypeInfo): Member {
    var name := "_" + Decimal(i + 1);
    Member(name, if owner == "" then name else owner + "." + name, TypeSpelling.Print(item), info)
  }

  function FieldMember(struct: string, f: Field, info: TypeInfo): Member {
    Member(f.name, struct + "." + f.name, TypeSpelling.Print(f.ty), info)
  }

  /** The record that a node names, when it names one. */
  ghost predicate Names(types: seq<NamedType>, node: TypeNode, owner: string, r: Option<nat>) {
    var name := RootName(node);
    if name.None? || name.value == "" || name.value in BUILTINS then r.None?
    else Means(types, name.value, owner, r)
  }

  /** What is shown for a node that may name a struct: the fields of the record it names, all of them and in
      order, unless that struct is open already. */
  ghost predicate ShowsRecord(types: seq<NamedType>, node: TypeNode, owner: string, path: set<string>,
                              r: Option<nat>, info: TypeInfo)
  {
    && Names(types, node, owner, r)
    && info.spelling == TypeSpelling.Print(node)
    && (r.None? ==> info.resolved.None? && !info.recursive && info.members == [] && info.kind != StructKind)
    && (r.Some? ==>
          && r.value < |types| && info.kind == StructKind
          && var record := types[r.value];
             && info.resolved == Some(record.qualifiedName)
             && (record.qualifiedName in path ==> info.recursive && info.members == [])
             && (record.qualifiedName !in path ==> ShowsFields(types, record, path, info)))
  }

  ghost predicate ShowsFields(types: seq<NamedType>, record: NamedType, path: set<string>, info: TypeInfo) {
    && !info.recursive && |info.members| == |record.fields|
    && forall i :: 0 <= i < |record.fields| ==>
         var field, name := record.fields[i], record.qualifiedName;
         info.members[i] == Member(field.name, name + "." + field.name, TypeSpelling.Print(field.ty),
                                   Expand(types, field.ty, name, path + {name}))
  }

  lemma NamedTypesAreOpened(types: seq<NamedType>, node: TypeNode, owner: string, path: set<string>)
    requires node.BaseNode? || node.AppliedNode?
    ensures ShowsRecord(types, node, owner, path, Resolve(types, node, owner), Expand(types, node, owner, path))
  {
    var r := Resolve(types, node, owner);
    if RootName(node).Some? {
      ResolveIsMeaning(types, node, owner);
    }
    ResolveInRange(types, node, owner);
    if r.Some? && types[r.value].qualifiedName !in path {
      var record := types[r.value];
      var below := path + {record.qualifiedName};
      FieldsAreWellMarked(types, record.qualifiedName, record.fields, below);
      forall i | 0 <= i < |record.fields|
        ensures ExpandFields(types, record.qualifiedName, record.fields, below)[i]
             == FieldMember(record.qualifiedName, record.fields[i],
                            Expand(types, record.fields[i].ty, record.qualifiedName, below))
      {
        FieldsAreShown(types, record.qualifiedName, record.fields, below, i);
      }
    }
  }

  class TypeExpander {
    const types: seq<NamedType>
    /** Structs whose expansion has begun and not ended. */
    var activeTypes: set<string>

    constructor (types: seq<NamedType>)
      ensures this.types == types && activeTypes == {}
    {
      this.types, activeTypes := types, {};
    }

    /** The set of active structs is left as it was found, so it is the path of the expansion. */
    method MakeTypeInfo(node: TypeNode, owner: string) returns (info: TypeInfo)
      modifies this
      ensures activeTypes == old(activeTypes)
      ensures info == Expand(types, node, owner, old(activeTypes))
      ensures node.BaseNode? || node.AppliedNode? ==>
        exists r :: ShowsRecord(types, node, owner, old(activeTypes), r, info)
      decreases Universe(types) - activeTypes, node, 2
    {
      match node {
        case ConstNode(base) =>
          info := MakeTypeInfo(base, owner);
          info := info.(spelling := TypeSpelling.Print(node), kind := ConstKind);
        case TupleNode(items) =>
          var members := [];
          for i := 0 to |items|
            invariant activeTypes == old(activeTypes)
            invariant members == ExpandItems(types, items[..i], owner, activeTypes)
          {
            assert items[..i + 1][..i] == items[..i];
            var item := MakeTypeInfo(items[i], owner);
            members := members + [ItemMember(owner, i, items[i], item)];
          }
          assert items[..|items|] == items;
          info := TypeInfo(TypeSpelling.Print(node), TupleKind, None, false, items != [], members);
        case BaseNode(_) =>
          info := MakeNamedTypeInfo(node, owner);
          NamedTypesAreOpened(types, node, owner, activeTypes);
        case AppliedNode(_, _) =>
          info := MakeNamedTypeInfo(node, owner);
          NamedTypesAreOpened(types, node, owner, activeTypes);
        case _ => info := Plain(node, KindOf(node));
      }
    }

    method MakeNamedTypeInfo(node: TypeNode, owner: string) returns (info: TypeInfo)
      modifies this
      ensures activeTypes == old(activeTypes)
      ensures info == ExpandNamed(types, node, owner, old(activeTypes))
      decreases Universe(types) - activeTypes, node, 1
    {
      var resolved := ResolveNamedTypeRecord(types, node, owner);
      if resolved.None? {
        return Plain(node, KindOf(node));
      }
      ResolveInRange(types, node, owner);
      var s := types[resolved.value];
      var name := s.qualifiedName;
      if name in activeTypes {
        return TypeInfo(TypeSpelling.Print(node), StructKind, Some(name), true, false, []);
      }
      assert name in Universe(types);
      activeTypes := activeTypes + {name};
      var members := [];
      for i := 0 to |s.fields|
        invariant activeTypes == old(activeTypes) + {name}
        invariant |members| == i && members == ExpandFields(types, name, s.fields[..i], activeTypes)
      {
        assert s.fields[..i + 1][..i] == s.fields[..i];
        var field := MakeTypeInfo(s.fields[i].ty, name);
        members := members + [FieldMember(name, s.fields[i], field)];
      }
      assert s.fields[..|s.fields|] == s.fields;
      activeTypes := activeTypes - {name};
      info := TypeInfo(TypeSpelling.Print(node), StructKind, Some(name), false, members != [], members);
    }
  }

  // ---------------------------------------------------------------------------------------------
  // What the marks mean
  // ---------------------------------------------------------------------------------------------

  /** In a tree of type information below the structs in `above`: a node is marked recursive exactly when
      its struct is one of those above it; it is then not opened again. A const node carries what its base
      carries, so it is judged like it. */
  predicate WellMarked(info: TypeInfo, above: set<string>)
    decreases info
  {
    && (info.recursive <==> info.resolved.Some? && info.resolved.value in above)
    && (info.recursive ==> info.members == [])
    && (info.hasMembers <==> info.members != [])
    && var below := above + if info.resolved.Some? then {info.resolved.value} else {};
       forall i :: 0 <= i < |info.members| ==> WellMarked(info.members[i].info, below)
  }

  predicate MembersMarked(members: seq<Member>, above: set<string>) {
    forall i :: 0 <= i < |members| ==> WellMarked(members[i].info, above)
  }

  lemma {:induction false} ExpansionIsWellMarked(types: seq<NamedType>, node: TypeNode, owner: string,
                                                 path: set<string>)
    ensures WellMarked(Expand(types, node, owner, path), path)
    decreases Universe(types) - path, node, 2
  {
    match node
    case ConstNode(base) =>
      ExpansionIsWellMarked(types, base, owner, path);
      SameMarks(Expand(types, base, owner, path), Expand(types, node, owner, path), path);
    case TupleNode(items) =>
      ItemsAreWellMarked(types, items, owner, path);
      TupleIsWellMarked(Expand(types, node, owner, path), path);
    case BaseNode(_) => NamedIsWellMarked(types, node, owner, path);
    case AppliedNode(_, _) => NamedIsWellMarked(types, node, owner, path);
    case _ => PlainIsWellMarked(node, KindOf(node), path);
  }

  lemma SameMarks(a: TypeInfo, b: TypeInfo, above: set<string>)
    requires WellMarked(a, above) && b == a.(spelling := b.spelling, kind := b.kind)
    ensures WellMarked(b, above)
  {
  }

  lemma TupleIsWellMarked(info: TypeInfo, above: set<string>)
    requires !info.recursive && info.resolved.None? && (info.hasMembers <==> info.members != [])
    requires MembersMarked(info.members, above)
    ensures WellMarked(info, above)
  {
    assert above + {} == above;
  }

  lemma PlainIsWellMarked(node: TypeNode, kind: Kind, above: set<string>)
    ensures WellMarked(Plain(node, kind), above)
  {
  }

  lemma {:induction false} NamedIsWellMarked(types: seq<NamedType>, node: TypeNode, owner: string, path: set<string>)
    ensures WellMarked(ExpandNamed(types, node, owner, path), path)
    decreases Universe(types) - path, node, 1
  {
    var resolved := Resolve(types, node, owner);
    if resolved.Some? {
      ResolveInRange(types, node, owner);
      var name := types[resolved.value].qualifiedName;
      if name !in path {
        FieldsAreWellMarked(types, name, types[resolved.value].fields, path + {name});
      }
    }
  }

  lemma {:induction false} ItemsAreWellMarked(types: seq<NamedType>, items: seq<TypeNode>, owner: string,
                                              path: set<string>)
    ensures var members := ExpandItems(types, items, owner, path); |members| == |items| && MembersMarked(members, path)
    decreases Universe(types) - path, items, 0
  {
    if items != [] {
      ItemsAreWellMarked(types, items[..|items| - 1], owner, path);
      ExpansionIsWellMarked(types, items[|items| - 1], owner, path);
    }
  }

  lemma {:induction false} FieldsAreWellMarked(types: seq<NamedType>, struct: string, fields: seq<Field>,
                                               path: set<string>)
    ensures var members := ExpandFields(types, struct, fields, path);
      |members| == |fields| && MembersMarked(members, path)
    decreases Universe(types) - path, fields, 3
  {
    if fields != [] {
      FieldsAreWellMarked(types, struct, fields[..|fields| - 1], path);
      ExpansionIsWellMarked(types, fields[|fields| - 1].ty, struct, path);
    }
  }

  /** An opened struct shows its fields, all of them and in order, each expanded in the scope of the struct. */
  lemma {:induction false} FieldsAreShown(types: seq<NamedType>, struct: string, fields: seq<Field>,
      path: set<string>, i: nat)
    requires i < |fields|
    ensures var members := ExpandFields(types, struct, fields, path);
      |members| == |fields| && members[i] == FieldMember(struct, fields[i], Expand(types, fields[i].ty, struct, path))
    decreases |fields|
  {
    var n := |fields| - 1;
    FieldsAreWellMarked(types, struct, fields[..n], path);
    if i < n {
      FieldsAreShown(types, struct, fields[..n], path, i);
    }
  }

  /** Const around a type changes neither its members nor its mark. */
  lemma {:induction false} ConstForwards(types: seq<NamedType>, node: TypeNode, owner: string, path: set<string>)
    ensures var outer, inner := Expand(types, node, owner, path), Expand(types, PeelConst(node), owner, path);
      && outer.members == inner.members && outer.hasMembers == inner.hasMembers
      && outer.recursive == inner.recursive && outer.resolved == inner.resolved
  {
    if node.ConstNode? {
      ConstForwards(types, node.base, owner, path);
    }
  }

  lemma {:induction false} ItemCount(types: seq<NamedType>, items: seq<TypeNode>, owner: string, path: set<string>)
    ensures |ExpandItems(types, items, owner, path)| == |items|
    decreases |items|
  {
    if items != [] {
      ItemCount(types, items[..|items| - 1], owner, path);
    }
  }

  lemma {:induction false} ItemsInOrder(types: seq<NamedType>, items: seq<TypeNode>, owner: string,
                                        path: set<string>, i: nat)
    requires i < |items| == |ExpandItems(types, items, owner, path)|
    ensures ExpandItems(types, items, owner, path)[i]
         == ItemMember(owner, i, items[i], Expand(types, items[i], owner, path))
    decreases |items|
  {
    var n := |items| - 1;
    ItemCount(types, items[..n], owner, path);
    if i < n {
      ItemsInOrder(types, items[..n], owner, path, i);
    }
  }

  /** A tuple shows its items, all of them and in order, numbered from one and expanded where the tuple stands. */
  lemma ItemsAreShown(types: seq<NamedType>, items: seq<TypeNode>, owner: string, path: set<string>, i: nat)
    requires i < |items|
    ensures var members := ExpandItems(types, items, owner, path);
      var name := "_" + Decimal(i + 1);
      && |members| == |items|
      && members[i] == Member(name, (if owner == "" then "" else owner + ".") + name, TypeSpelling.Print(items[i]),
                              Expand(types, items[i], owner, path))
  {
    ItemCount(types, items, owner, path);
    ItemsInOrder(types, items, owner, path, i);
    var name := "_" + Decimal(i + 1);
    assert "" + name == name;
  }

  /** What a kind says can be read off the spelling. */
  predicate KindIsSpelled(kind: Kind, s: string) {
    match kind
    case ConstKind => EndsWith(s, " const")
    case DynKind => EndsWith(s, " dyn")
    case PointerKind => s != "" && s[|s| - 1] == '*'
    case IndexableKind => EndsWith(s, "[*]")
    case ArrayKind => s != "" && s[|s| - 1] == ']' && !EndsWith(s, "[*]")
    case TupleKind => s != "" && s[0] == '<' && s[|s| - 1] == '>'
    case FuncPtrKind => s != "" && s[0] == '(' && s[|s| - 1] == ')'
    case AnyKind => s == "any"
    case _ => true
  }

  lemma KindsAreSpelled(types: seq<NamedType>, node: TypeNode, owner: string, path: set<string>)
    requires !node.FuncParamNode? && (node.PointerNode? ==> node.dim > 0)
    ensures var info := Expand(types, node, owner, path);
      && info.spelling == TypeSpelling.Print(node) && KindIsSpelled(info.kind, info.spelling)
      && (info.kind in {StructKind, BuiltinKind, NamedKind, AppliedKind} <==> node.BaseNode? || node.AppliedNode?)
      && (info.kind.BuiltinKind? <==>
            (node.BaseNode? || node.AppliedNode?) && RootName(node).Some? && RootName(node).value in BUILTINS)
  {
    match node
    case ConstNode(base) => SuffixOf(TypeSpelling.Print(base), " const");
    case TupleNode(_) =>
    case BaseNode(_) => NamedKinds(types, node, owner, path);
    case AppliedNode(_, _) => NamedKinds(types, node, owner, path);
    case _ => OtherKinds(node);
  }

  lemma NamedKinds(types: seq<NamedType>, node: TypeNode, owner: string, path: set<string>)
    requires node.BaseNode? || node.AppliedNode?
    ensures var info := ExpandNamed(types, node, owner, path);
      && info.spelling == TypeSpelling.Print(node)
      && info.kind in {StructKind, BuiltinKind, NamedKind, AppliedKind}
      && (info.kind.BuiltinKind? <==> RootName(node).Some? && RootName(node).value in BUILTINS)
  {
  }

  lemma OtherKinds(node: TypeNode)
    requires !node.FuncParamNode? && (node.PointerNode? ==> node.dim > 0)
    requires !node.BaseNode? && !node.AppliedNode? && !node.ConstNode? && !node.TupleNode?
    ensures KindIsSpelled(KindOf(node), TypeSpelling.Print(node))
    ensures KindOf(node) !in {StructKind, BuiltinKind, NamedKind, AppliedKind}
  {
    match node
    case DynNode(base) => DynSpelling(TypeSpelling.Print(base));
    case IndexableNode(base) => IndexableSpelling(TypeSpelling.Print(base));
    case ArrayNode(base, dims) => ArraySpelling(TypeSpelling.Print(base), dims);
    case PointerNode(base, dim) => PointerSpelling(TypeSpelling.Print(base), dim);
    case FuncPtrNode(params, ret) =>
      FuncPtrSpelling(TypeSpelling.PrintList(params) + ":"
                      + (if ret.Some? then " " + TypeSpelling.Print(ret.value) else ""));
    case AnyNode =>
  }

  lemma DynSpelling(base: string)
    ensures KindIsSpelled(DynKind, base + " dyn")
  {
    SuffixOf(base, " dyn");
  }

  lemma IndexableSpelling(base: string)
    ensures KindIsSpelled(IndexableKind, base + "[*]")
  {
    SuffixOf(base, "[*]");
  }

  lemma PointerSpelling(base: string, dim: nat)
    requires dim > 0
    ensures KindIsSpelled(PointerKind, base + TypeSpelling.Stars(dim))
  {
  }

  lemma FuncPtrSpelling(inner: string)
    ensures KindIsSpelled(FuncPtrKind, "(" + inner + ")")
  {
  }

  lemma ArraySpelling(base: string, dims: seq<Option<Extent>>)
    ensures KindIsSpelled(ArrayKind, base + ("[" + TypeSpelling.PrintExtents(dims) + "]"))
  {
    var inner := TypeSpelling.PrintExtents(dims);
    var s := base + ("[" + inner + "]");
    TypeSpelling.ExtentsPlain(dims);
    if inner == "" {
      NotSuffix(s, "[*]", 1);
    } else {
      assert s[|s| - 2] == inner[|inner| - 1];
      assert inner[|inner| - 1] in inner;
      NotSuffix(s, "[*]", 1);
    }
  }

  /** The root name is what the spelling starts with, up to the first bracket or blank. */
  lemma {:induction false} RootIsPrinted(node: TypeNode)
    requires RootName(node).Some?
    ensures var s, name := TypeSpelling.Print(node), RootName(node).value;
      && |name| <= |s| && s[..|name|] == name
      && (|name| < |s| ==> s[|name|] == '[' || s[|name|] == ' ')
  {
    match node
    case ConstNode(base) => RootIsPrinted(base);
    case AppliedNode(base, _) => RootIsPrinted(base);
    case _ =>
  }

  /** Every named or applied type has a root, const or not, unless it is `any` that is applied. */
  lemma {:induction false} NamedHaveRoots(node: TypeNode)
    requires TypeSpelling.WellFormed(node) && (node.BaseNode? || node.AppliedNode?)
    ensures RootName(node).Some? || (|TypeSpelling.Print(node)| >= 3 && TypeSpelling.Print(node)[..3] == "any")
    ensures RootName(ConstNode(node)) == RootName(node)
  {
    if node.AppliedNode? && !node.base.AnyNode? {
      NamedHaveRoots(node.base);
    }
  }
}
