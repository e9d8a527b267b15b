/** `PredefinedAssemblyUtil`: finds the types that implement an interface in
    Unity's predefined script assemblies. Types are values of a type parameter
    `Ty`; `isAssignableFrom(i, t)` stands for `i.IsAssignableFrom(t)`. */
module PredefinedAssemblyUtil {
  import opened Wrappers

  /** The predefined assemblies Unity compiles scripts into. */
  datatype AssemblyType =
    | AssemblyCSharp
    | AssemblyCSharpEditor
    | AssemblyCSharpEditorFirstPass
    | AssemblyCSharpFirstPass

  /** The assembly name Unity gives each predefined assembly. */
  function AssemblyName(t: AssemblyType): string
  {
    match t
    case AssemblyCSharp => "Assembly-CSharp"
    case AssemblyCSharpEditor => "Assembly-CSharp-Editor"
    case AssemblyCSharpEditorFirstPass => "Assembly-CSharp-Editor-firstpass"
    case AssemblyCSharpFirstPass => "Assembly-CSharp-firstpass"
  }

  /** Maps an assembly name to its predefined assembly; any other name gives
      none. */
  function GetAssemblyType(assemblyName: string): (r: Option<AssemblyType>)
    ensures r.Some? <==> assemblyName in {"Assembly-CSharp", "Assembly-CSharp-Editor",
                                          "Assembly-CSharp-Editor-firstpass", "Assembly-CSharp-firstpass"}
    ensures r.Some? ==> AssemblyName(r.value) == assemblyName
  {
    match assemblyName
    case "Assembly-CSharp" => Some(AssemblyCSharp)
    case "Assembly-CSharp-Editor" => Some(AssemblyCSharpEditor)
    case "Assembly-CSharp-Editor-firstpass" => Some(AssemblyCSharpEditorFirstPass)
    case "Assembly-CSharp-firstpass" => Some(AssemblyCSharpFirstPass)
    case _ => None
  }

  /** Every predefined assembly is found again from its own name. */
  lemma AssemblyNameRoundTrip(t: AssemblyType)
    ensures GetAssemblyType(AssemblyName(t)) == Some(t)
  {
  }

  /** The types of `types`, in order, that implement `interfaceType` and are not
      the interface itself. */
  function Implementations<Ty(==)>(types: seq<Ty>, interfaceType: Ty, isAssignableFrom: (Ty, Ty) -> bool): (r: seq<Ty>)
    ensures |r| <= |types|
    ensures forall k :: 0 <= k < |r| ==> r[k] in types && r[k] != interfaceType && isAssignableFrom(interfaceType, r[k])
    ensures forall k :: 0 <= k < |types| && types[k] != interfaceType && isAssignableFrom(interfaceType, types[k]) ==> types[k] in r
  {
    if types == [] then []
    else
      var init := types[..|types| - 1];
      var t := types[|types| - 1];
      assert types == init + [t];
      Implementations(init, interfaceType, isAssignableFrom)
        + (if t != interfaceType && isAssignableFrom(interfaceType, t) then [t] else [])
  }

  /** The filter works element by element: filtering two arrays one after the
      other gives the filtered concatenation, so the order of the types is
      kept. */
  lemma {:induction false} ImplementationsAppend<Ty>(a: seq<Ty>, b: seq<Ty>, interfaceType: Ty, isAssignableFrom: (Ty, Ty) -> bool)
    ensures Implementations(a + b, interfaceType, isAssignableFrom)
         == Implementations(a, interfaceType, isAssignableFrom) + Implementations(b, interfaceType, isAssignableFrom)
    decreases |b|
  {
    if b == [] {
      assert a + b == a;
    } else {
      var init := b[..|b| - 1];
      assert (a + b)[..|a + b| - 1] == a + init;
      assert (a + b)[|a + b| - 1] == b[|b| - 1];
      ImplementationsAppend(a, init, interfaceType, isAssignableFrom);
    }
  }

  /** `AddTypesFromAssembly`: appends to `results` the implementations found in
      the array, which may be null. */
  method AddTypesFromAssembly<Ty(==)>(assemblyTypes: Option<seq<Ty>>, interfaceType: Ty,
                                      isAssignableFrom: (Ty, Ty) -> bool, results: seq<Ty>)
    returns (added: seq<Ty>)
    ensures assemblyTypes.None? ==> added == results
    ensures assemblyTypes.Some? ==> added == results + Implementations(assemblyTypes.value, interfaceType, isAssignableFrom)
  {
    added := results;
    if assemblyTypes.None? {
      return;
    }
    var types := assemblyTypes.value;
    for i := 0 to |types|
      invariant added == results + Implementations(types[..i], interfaceType, isAssignableFrom)
    {
      assert types[..i + 1][..i] == types[..i];
      var t := types[i];
      if t != interfaceType && isAssignableFrom(interfaceType, t) {
        added := added + [t];
      }
    }
    assert types[..|types|] == types;
  }

  /** A loaded assembly: its name and the types it defines. */
  datatype Assembly<Ty> = Assembly(name: string, types: seq<Ty>)

  /** What the dictionary-building loop reads from one loaded assembly: the
      predefined assembly it is, if any, and its types. */
  datatype Entry<Ty> = Entry(key: Option<AssemblyType>, types: seq<Ty>)

  /** The entries of the loaded assemblies, in order. */
  function Entries<Ty>(assemblies: seq<Assembly<Ty>>): (es: seq<Entry<Ty>>)
    ensures |es| == |assemblies|
    ensures forall i :: 0 <= i < |es| ==>
      es[i].types == assemblies[i].types
      && (es[i].key.Some? <==> assemblies[i].name in {"Assembly-CSharp", "Assembly-CSharp-Editor",
                                                      "Assembly-CSharp-Editor-firstpass", "Assembly-CSharp-firstpass"})
      && (es[i].key.Some? ==> AssemblyName(es[i].key.value) == assemblies[i].name)
  {
    seq(|assemblies|, i requires 0 <= i < |assemblies| => Entry(GetAssemblyType(assemblies[i].name), assemblies[i].types))
  }

  /** The dictionary `GetTypes` builds from the entries, in order.
      `Dictionary.Add` throws on a key that is already present: the failure names
      the predefined assembly met twice. */
  function Categorize<Ty>(entries: seq<Entry<Ty>>): Result<map<AssemblyType, seq<Ty>>, AssemblyType>
    decreases |entries|
  {
    if entries == [] then Success(map[])
    else
      var last := entries[|entries| - 1];
      match Categorize(entries[..|entries| - 1])
      case Failure(t) => Failure(t)
      case Success(m) =>
        match last.key
        case None => Success(m)
        case Some(t) => if t in m then Failure(t) else Success(m[t := last.types])
  }

  /** Two loaded assemblies are the same predefined assembly. */
  predicate HasDuplicate<Ty>(entries: seq<Entry<Ty>>)
  {
    exists i, j :: 0 <= i < j < |entries| && entries[i].key.Some? && entries[i].key == entries[j].key
  }

  /** A built dictionary maps each loaded predefined assembly, and nothing else,
      to its types. */
  lemma {:induction false} CategorizeContents<Ty>(entries: seq<Entry<Ty>>)
    requires Categorize(entries).Success?
    ensures forall i :: 0 <= i < |entries| && entries[i].key.Some? ==>
      entries[i].key.value in Categorize(entries).value
      && Categorize(entries).value[entries[i].key.value] == entries[i].types
    ensures forall t :: t in Categorize(entries).value ==>
      exists i :: 0 <= i < |entries| && entries[i].key == Some(t)
    decreases |entries|
  {
    if entries != [] {
      var n := |entries| - 1;
      var init := entries[..n];
      assert Categorize(init).Success?;
      CategorizeContents(init);
      var m := Categorize(init).value;
      var m' := Categorize(entries).value;
      assert forall i :: 0 <= i < n ==> entries[i] == init[i];
      forall t | t in m'
        ensures exists i :: 0 <= i < |entries| && entries[i].key == Some(t)
      {
        if t in m {
          var i :| 0 <= i < |init| && init[i].key == Some(t);
          assert entries[i].key == Some(t);
        } else {
          assert entries[n].key == Some(t);
        }
      }
    }
  }

  /** A duplicate is one inside the prefix, or the last assembly repeating an
      earlier one. */
  lemma HasDuplicateSnoc<Ty>(entries: seq<Entry<Ty>>)
    requires entries != []
    ensures var n := |entries| - 1;
      HasDuplicate(entries) <==>
        HasDuplicate(entries[..n])
        || (entries[n].key.Some? && exists i :: 0 <= i < n && entries[i].key == entries[n].key)
  {
    var n := |entries| - 1;
    var init := entries[..n];
    if HasDuplicate(entries) {
      var i, j :| 0 <= i < j < |entries| && entries[i].key.Some? && entries[i].key == entries[j].key;
      if j < n {
        assert init[i] == entries[i] && init[j] == entries[j];
      }
    }
    if HasDuplicate(init) {
      var i, j :| 0 <= i < j < |init| && init[i].key.Some? && init[i].key == init[j].key;
      assert init[i] == entries[i] && init[j] == entries[j];
    }
  }

  /** The dictionary is built exactly when no predefined assembly is loaded
      twice. */
  lemma {:induction false} CategorizeFailsOnDuplicate<Ty>(entries: seq<Entry<Ty>>)
    ensures Categorize(entries).Failure? <==> HasDuplicate(entries)
    decreases |entries|
  {
    if entries != [] {
      var n := |entries| - 1;
      var init := entries[..n];
      var last := entries[n];
      CategorizeFailsOnDuplicate(init);
      HasDuplicateSnoc(entries);
      if Categorize(init).Success? {
        CategorizeContents(init);
        var m := Categorize(init).value;
        if last.key.Some? && last.key.value in m {
          var i :| 0 <= i < |init| && init[i].key == last.key;
          assert entries[i] == init[i];
        }
        if last.key.Some? && exists i :: 0 <= i < n && entries[i].key == last.key {
          var i :| 0 <= i < n && entries[i].key == last.key;
          assert entries[i] == init[i];
        }
      }
    }
  }

  /** Once `Dictionary.Add` has thrown on a prefix, later assemblies change
      nothing: `GetTypes` fails with the same exception. */
  lemma {:induction false} CategorizeFailureSticks<Ty>(entries: seq<Entry<Ty>>, k: nat)
    requires k <= |entries| && Categorize(entries[..k]).Failure?
    ensures Categorize(entries) == Categorize(entries[..k])
    decreases |entries| - k
  {
    if k < |entries| {
      assert entries[..k + 1][..k] == entries[..k];
      CategorizeFailureSticks(entries, k + 1);
    } else {
      assert entries[..k] == entries;
    }
  }

  /** `Dictionary.TryGetValue`: the types of the assembly, or null. */
  function TryGetValue<Ty>(m: map<AssemblyType, seq<Ty>>, t: AssemblyType): (r: Option<seq<Ty>>)
    ensures r.Some? <==> t in m
    ensures r.Some? ==> r.value == m[t]
  {
    if t in m then Some(m[t]) else None
  }

  /** The types of an assembly looked up in the dictionary; a missing assembly
      has none. */
  function TypesIn<Ty>(m: map<AssemblyType, seq<Ty>>, t: AssemblyType): seq<Ty>
  {
    match TryGetValue(m, t)
    case None => []
    case Some(types) => types
  }

  /** What `GetTypes` returns: the implementations in Assembly-CSharp followed by
      those in Assembly-CSharp-firstpass, or the predefined assembly that was
      loaded twice. */
  function ExpectedTypes<Ty(==)>(assemblies: seq<Assembly<Ty>>, interfaceType: Ty, isAssignableFrom: (Ty, Ty) -> bool)
    : Result<seq<Ty>, AssemblyType>
  {
    match Categorize(Entries(assemblies))
    case Failure(t) => Failure(t)
    case Success(m) =>
      Success(Implementations(TypesIn(m, AssemblyCSharp), interfaceType, isAssignableFrom)
              + Implementations(TypesIn(m, AssemblyCSharpFirstPass), interfaceType, isAssignableFrom))
  }

  /** `GetTypes` over the assemblies loaded in the application domain. */
  method GetTypes<Ty(==)>(assemblies: seq<Assembly<Ty>>, interfaceType: Ty, isAssignableFrom: (Ty, Ty) -> bool)
    returns (r: Result<seq<Ty>, AssemblyType>)
    ensures r == ExpectedTypes(assemblies, interfaceType, isAssignableFrom)
  {
    var assemblyTypes: map<AssemblyType, seq<Ty>> := map[];
    ghost var entries := Entries(assemblies);
    for i := 0 to |assemblies|
      invariant Categorize(entries[..i]) == Success(assemblyTypes)
    {
      assert entries[..i + 1][..i] == entries[..i];
      var assemblyType := GetAssemblyType(assemblies[i].name);
      assert assemblyType == entries[i].key;
      if assemblyType.Some? {
        if assemblyType.value in assemblyTypes {
          CategorizeFailureSticks(entries, i + 1);
          return Failure(assemblyType.value);
        }
        assemblyTypes := assemblyTypes[assemblyType.value := assemblies[i].types];
      }
    }
    assert entries[..|assemblies|] == entries;
    var types: seq<Ty> := [];
    types := AddTypesFromAssembly(TryGetValue(assemblyTypes, AssemblyCSharp), interfaceType, isAssignableFrom, types);
    assert types == Implementations(TypesIn(assemblyTypes, AssemblyCSharp), interfaceType, isAssignableFrom);
    ghost var before := types;
    types := AddTypesFromAssembly(TryGetValue(assemblyTypes, AssemblyCSharpFirstPass), interfaceType, isAssignableFrom, types);
    assert types == before + Implementations(TypesIn(assemblyTypes, AssemblyCSharpFirstPass), interfaceType, isAssignableFrom);
    return Success(types);
  }

  /** What `GetTypes` finds: unless a predefined assembly is loaded twice, a
      type is returned exactly when it implements the interface, is not the
      interface, and is defined in Assembly-CSharp or Assembly-CSharp-firstpass;
      the editor assemblies never contribute. */
  lemma GetTypesMembership<Ty>(assemblies: seq<Assembly<Ty>>, interfaceType: Ty, isAssignableFrom: (Ty, Ty) -> bool, t: Ty)
    ensures ExpectedTypes(assemblies, interfaceType, isAssignableFrom).Failure? <==> HasDuplicate(Entries(assemblies))
    ensures ExpectedTypes(assemblies, interfaceType, isAssignableFrom).Success? ==>
      (t in ExpectedTypes(assemblies, interfaceType, isAssignableFrom).value <==>
        t != interfaceType && isAssignableFrom(interfaceType, t)
        && exists i :: 0 <= i < |assemblies| && t in assemblies[i].types
             && assemblies[i].name in {"Assembly-CSharp", "Assembly-CSharp-firstpass"})
  {
    CategorizeFailsOnDuplicate(Entries(assemblies));
    var r := ExpectedTypes(assemblies, interfaceType, isAssignableFrom);
    if r.Success? {
      if t in r.value {
        GetTypesFound(assemblies, interfaceType, isAssignableFrom, t);
      }
      if t != interfaceType && isAssignableFrom(interfaceType, t)
         && exists i :: 0 <= i < |assemblies| && t in assemblies[i].types
              && assemblies[i].name in {"Assembly-CSharp", "Assembly-CSharp-firstpass"}
      {
        GetTypesComplete(assemblies, interfaceType, isAssignableFrom, t);
      }
    }
  }

  lemma GetTypesFound<Ty>(assemblies: seq<Assembly<Ty>>, interfaceType: Ty, isAssignableFrom: (Ty, Ty) -> bool, t: Ty)
    requires ExpectedTypes(assemblies, interfaceType, isAssignableFrom).Success?
    requires t in ExpectedTypes(assemblies, interfaceType, isAssignableFrom).value
    ensures t != interfaceType && isAssignableFrom(interfaceType, t)
    ensures exists i :: 0 <= i < |assemblies| && t in assemblies[i].types
              && assemblies[i].name in {"Assembly-CSharp", "Assembly-CSharp-firstpass"}
  {
    var entries := Entries(assemblies);
    var m := Categorize(entries).value;
    CategorizeContents(entries);
    var k := if t in TypesIn(m, AssemblyCSharp) then AssemblyCSharp else AssemblyCSharpFirstPass;
    var i :| 0 <= i < |entries| && entries[i].key == Some(k);
    assert t in assemblies[i].types;
    assert assemblies[i].name == AssemblyName(k);
  }

  lemma GetTypesComplete<Ty>(assemblies: seq<Assembly<Ty>>, interfaceType: Ty, isAssignableFrom: (Ty, Ty) -> bool, t: Ty)
    requires ExpectedTypes(assemblies, interfaceType, isAssignableFrom).Success?
    requires t != interfaceType && isAssignableFrom(interfaceType, t)
    requires exists i :: 0 <= i < |assemblies| && t in assemblies[i].types
               && assemblies[i].name in {"Assembly-CSharp", "Assembly-CSharp-firstpass"}
    ensures t in ExpectedTypes(assemblies, interfaceType, isAssignableFrom).value
  {
    var entries := Entries(assemblies);
    var i :| 0 <= i < |assemblies| && t in assemblies[i].types
               && assemblies[i].name in {"Assembly-CSharp", "Assembly-CSharp-firstpass"};
    var k := if assemblies[i].name == "Assembly-CSharp" then AssemblyCSharp else AssemblyCSharpFirstPass;
    assert entries[i].key == GetAssemblyType(assemblies[i].name) == Some(k);
    CategorizedTypes(entries, i);
    var m := Categorize(entries).value;
    var types := TypesIn(m, k);
    var j :| 0 <= j < |types| && types[j] == t;
    var found := Implementations(types, interfaceType, isAssignableFrom);
    assert t in found;
    var cs := Implementations(TypesIn(m, AssemblyCSharp), interfaceType, isAssignableFrom);
    var fs := Implementations(TypesIn(m, AssemblyCSharpFirstPass), interfaceType, isAssignableFrom);
    assert ExpectedTypes(assemblies, interfaceType, isAssignableFrom).value == cs + fs;
    if k == AssemblyCSharp {
      assert found == cs;
    } else {
      assert found == fs;
    }
  }

  /** Looking up a loaded predefined assembly gives its types. */
  lemma CategorizedTypes<Ty>(entries: seq<Entry<Ty>>, i: nat)
    requires Categorize(entries).Success? && i < |entries| && entries[i].key.Some?
    ensures TypesIn(Categorize(entries).value, entries[i].key.value) == entries[i].types
  {
    CategorizeContents(entries);
  }
}
