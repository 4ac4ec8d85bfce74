/** The assembly and type scanner of Library/Utilities/ReflectionsUtility.cs, over
    abstract records of what reflection reports. An attribute type is named by a string
    tag; a type or method "carries" a tag when reflection lists an attribute of that
    type declared on it. */
module Reflection {
  import opened Wrappers
  import opened Text

  /** A method: its name and the attribute types declared on it. */
  datatype MethodInfo = MethodInfo(name: string, attributes: set<string>)

  /** A type: the attribute types declared on it and what
      GetMethods(Public | NonPublic | Static | Instance) lists. */
  datatype TypeInfo = TypeInfo(name: string, attributes: set<string>, methods: seq<MethodInfo>)

  /** What Assembly.GetTypes() does. */
  datatype TypeLoad =
    | Loaded(types: seq<TypeInfo>)
      // ReflectionTypeLoadException, whose Types holds null where a type failed to load
    | PartiallyLoaded(loaded: seq<Option<TypeInfo>>)
      // any other exception
    | LoadFailed

  datatype Assembly = Assembly(name: string, globalAssemblyCache: bool, load: TypeLoad)

  const BlacklistedPrefixes: seq<string> :=
    ["System", "Microsoft", "mscorlib", "netstandard", "Unity", "UnityEngine", "UnityEditor"]

  /** IsBlacklistedAssembly: a listed prefix, "Unity" or "Mono" anywhere in the name, or an
      assembly from the global assembly cache. The three Unity prefixes add nothing to the
      "Unity" substring test, so the blacklist comes down to four prefixes, two substrings
      and the cache flag. */
  function IsBlacklistedAssembly(a: Assembly): (b: bool)
    ensures b <==>
              || StartsWith(a.name, "System")
              || StartsWith(a.name, "Microsoft")
              || StartsWith(a.name, "mscorlib")
              || StartsWith(a.name, "netstandard")
              || Contains(a.name, "Unity")
              || Contains(a.name, "Mono")
              || a.globalAssemblyCache
  {
    UnityPrefixes(a.name);
    assert "System" in BlacklistedPrefixes && "Microsoft" in BlacklistedPrefixes;
    assert "mscorlib" in BlacklistedPrefixes && "netstandard" in BlacklistedPrefixes;
    || (exists prefix | prefix in BlacklistedPrefixes :: StartsWith(a.name, prefix))
    || Contains(a.name, "Unity")
    || Contains(a.name, "Mono")
    || a.globalAssemblyCache
  }

  /** A name that starts with one of the Unity prefixes contains "Unity". */
  lemma UnityPrefixes(name: string)
    ensures forall prefix | prefix in BlacklistedPrefixes && StartsWith(name, prefix) ::
              prefix in ["System", "Microsoft", "mscorlib", "netstandard"] || Contains(name, "Unity")
  {
    forall prefix | prefix in BlacklistedPrefixes && StartsWith(name, prefix)
      ensures prefix in ["System", "Microsoft", "mscorlib", "netstandard"] || Contains(name, "Unity")
    {
      if prefix in ["Unity", "UnityEngine", "UnityEditor"] {
        assert name[..5] == prefix[..5] == "Unity";
        assert OccursAt(name, "Unity", 0);
      }
    }
  }

  /** SafeGetTypes: never fails. A full load gives every type, a partial load the types
      that did load (in order), any other failure nothing. */
  function SafeGetTypes(a: Assembly): (types: seq<TypeInfo>)
    ensures a.load.Loaded? ==> types == a.load.types
    ensures a.load.PartiallyLoaded? ==> forall t :: t in types <==> Some(t) in a.load.loaded
    ensures a.load.PartiallyLoaded? ==> |types| <= |a.load.loaded|
    ensures a.load.LoadFailed? ==> types == []
  {
    match a.load
    case Loaded(types) => types
    case PartiallyLoaded(loaded) =>
      SomesEmpty(loaded);
      forall t ensures t in Somes(loaded) <==> Some(t) in loaded { SomesMembers(loaded, t); }
      Somes(loaded)
    case LoadFailed => []
  }

  /** SelectMany(type => type.GetMethods(...)): the methods of each type, type by type. */
  function AllMethods(types: seq<TypeInfo>): (methods: seq<MethodInfo>)
    ensures forall m :: m in methods <==> exists t | t in types :: m in t.methods
  {
    if types == [] then
      []
    else
      var rest := AllMethods(types[1..]);
      assert forall t :: t in types <==> t == types[0] || t in types[1..];
      types[0].methods + rest
  }

  predicate Carries(attributes: set<string>, tag: string) {
    tag in attributes
  }

  /** GetMethodsWithAttribute: nothing for a blacklisted assembly; otherwise every
      tagged method of every type the assembly yields. */
  function GetMethodsWithAttribute(a: Assembly, tag: string): (methods: seq<MethodInfo>)
    ensures IsBlacklistedAssembly(a) ==> methods == []
    ensures forall m :: m in methods <==>
              && !IsBlacklistedAssembly(a)
              && Carries(m.attributes, tag)
              && exists t | t in SafeGetTypes(a) :: m in t.methods
  {
    if IsBlacklistedAssembly(a) then
      []
    else
      var tagged := (m: MethodInfo) => Carries(m.attributes, tag);
      forall m ensures m in Where(AllMethods(SafeGetTypes(a)), tagged) <==> m in AllMethods(SafeGetTypes(a)) && tagged(m) {
        WhereMembers(AllMethods(SafeGetTypes(a)), tagged, m);
      }
      Where(AllMethods(SafeGetTypes(a)), tagged)
  }

  /** GetTypesWithAttribute: the tagged types, with no blacklist check. */
  function GetTypesWithAttribute(a: Assembly, tag: string): (types: seq<TypeInfo>)
    ensures forall t :: t in types <==> t in SafeGetTypes(a) && Carries(t.attributes, tag)
  {
    Where(SafeGetTypes(a), (t: TypeInfo) => Carries(t.attributes, tag))
  }

  /** GetTypesWithAttributes: the types that carry both tags, with no blacklist check. */
  function GetTypesWithAttributes(a: Assembly, tag1: string, tag2: string): (types: seq<TypeInfo>)
    ensures forall t :: t in types <==>
              t in SafeGetTypes(a) && Carries(t.attributes, tag1) && Carries(t.attributes, tag2)
  {
    Where(SafeGetTypes(a), (t: TypeInfo) => Carries(t.attributes, tag1) && Carries(t.attributes, tag2))
  }

  predicate NotBlacklisted(a: Assembly) {
    !IsBlacklistedAssembly(a)
  }

  predicate HasMethodsWithAttribute(a: Assembly, tag: string) {
    exists t | t in SafeGetTypes(a) :: exists m | m in t.methods :: Carries(m.attributes, tag)
  }

  predicate HasClassesWithAttribute(a: Assembly, tag: string) {
    exists t | t in SafeGetTypes(a) :: Carries(t.attributes, tag)
  }

  predicate HasClassesWithAttributes(a: Assembly, tag1: string, tag2: string) {
    exists t | t in SafeGetTypes(a) :: Carries(t.attributes, tag1) && Carries(t.attributes, tag2)
  }

  /** GetAssembliesWithMethodsWithAttribute: the assemblies, blacklisted ones dropped,
      that have a tagged method; that is, those on which GetMethodsWithAttribute finds
      something. */
  function GetAssembliesWithMethodsWithAttribute(assemblies: seq<Assembly>, tag: string): (r: seq<Assembly>)
    ensures |r| <= |assemblies|
    ensures forall a :: a in r <==> a in assemblies && GetMethodsWithAttribute(a, tag) != []
    ensures forall a :: a in r ==> !IsBlacklistedAssembly(a)
  {
    var r := Where(Where(assemblies, NotBlacklisted), a => HasMethodsWithAttribute(a, tag));
    forall a ensures HasMethodsWithAttribute(a, tag) && NotBlacklisted(a) <==> GetMethodsWithAttribute(a, tag) != [] {
      MethodsFound(a, tag);
    }
    r
  }

  lemma MethodsFound(a: Assembly, tag: string)
    ensures HasMethodsWithAttribute(a, tag) && NotBlacklisted(a) <==> GetMethodsWithAttribute(a, tag) != []
  {
    if HasMethodsWithAttribute(a, tag) && NotBlacklisted(a) {
      var t :| t in SafeGetTypes(a) && exists m | m in t.methods :: Carries(m.attributes, tag);
      var m :| m in t.methods && Carries(m.attributes, tag);
      assert m in GetMethodsWithAttribute(a, tag);
    }
    if GetMethodsWithAttribute(a, tag) != [] {
      var m := GetMethodsWithAttribute(a, tag)[0];
      assert m in GetMethodsWithAttribute(a, tag);
    }
  }

  /** GetAssembliesWithClassesWithAttribute: the assemblies, blacklisted ones dropped,
      that have a tagged type. */
  function GetAssembliesWithClassesWithAttribute(assemblies: seq<Assembly>, tag: string): (r: seq<Assembly>)
    ensures |r| <= |assemblies|
    ensures forall a :: a in r <==>
              a in assemblies && !IsBlacklistedAssembly(a) && GetTypesWithAttribute(a, tag) != []
  {
    var r := Where(Where(assemblies, NotBlacklisted), a => HasClassesWithAttribute(a, tag));
    forall a ensures HasClassesWithAttribute(a, tag) <==> GetTypesWithAttribute(a, tag) != [] {
      if HasClassesWithAttribute(a, tag) {
        var t :| t in SafeGetTypes(a) && Carries(t.attributes, tag);
        assert t in GetTypesWithAttribute(a, tag);
      }
      if GetTypesWithAttribute(a, tag) != [] {
        assert GetTypesWithAttribute(a, tag)[0] in GetTypesWithAttribute(a, tag);
      }
    }
    r
  }

  /** GetAssembliesWithClassesWithAttributes: the assemblies, blacklisted ones dropped, in
      which a single type carries both tags. */
  function GetAssembliesWithClassesWithAttributes(assemblies: seq<Assembly>, tag1: string, tag2: string): (r: seq<Assembly>)
    ensures |r| <= |assemblies|
    ensures forall a :: a in r <==>
              a in assemblies && !IsBlacklistedAssembly(a) && GetTypesWithAttributes(a, tag1, tag2) != []
  {
    var r := Where(Where(assemblies, NotBlacklisted), a => HasClassesWithAttributes(a, tag1, tag2));
    forall a ensures HasClassesWithAttributes(a, tag1, tag2) <==> GetTypesWithAttributes(a, tag1, tag2) != [] {
      if HasClassesWithAttributes(a, tag1, tag2) {
        var t :| t in SafeGetTypes(a) && Carries(t.attributes, tag1) && Carries(t.attributes, tag2);
        assert t in GetTypesWithAttributes(a, tag1, tag2);
      }
      if GetTypesWithAttributes(a, tag1, tag2) != [] {
        assert GetTypesWithAttributes(a, tag1, tag2)[0] in GetTypesWithAttributes(a, tag1, tag2);
      }
    }
    r
  }

  /** The three assembly filters keep the input order: scanning two runs of assemblies
      is scanning each run and concatenating. */
  lemma AssemblyScansKeepOrder(x: seq<Assembly>, y: seq<Assembly>, tag1: string, tag2: string)
    ensures GetAssembliesWithMethodsWithAttribute(x + y, tag1)
         == GetAssembliesWithMethodsWithAttribute(x, tag1) + GetAssembliesWithMethodsWithAttribute(y, tag1)
    ensures GetAssembliesWithClassesWithAttribute(x + y, tag1)
         == GetAssembliesWithClassesWithAttribute(x, tag1) + GetAssembliesWithClassesWithAttribute(y, tag1)
    ensures GetAssembliesWithClassesWithAttributes(x + y, tag1, tag2)
         == GetAssembliesWithClassesWithAttributes(x, tag1, tag2) + GetAssembliesWithClassesWithAttributes(y, tag1, tag2)
  {
    WhereAppend(x, y, NotBlacklisted);
    var fx, fy := Where(x, NotBlacklisted), Where(y, NotBlacklisted);
    WhereAppend(fx, fy, a => HasMethodsWithAttribute(a, tag1));
    WhereAppend(fx, fy, a => HasClassesWithAttribute(a, tag1));
    WhereAppend(fx, fy, a => HasClassesWithAttributes(a, tag1, tag2));
  }

  /** An assembly in which no type carries both tags is dropped by
      GetAssembliesWithClassesWithAttributes, whatever its single types carry ... */
  lemma BothTagsOnOneType(a: Assembly, tag1: string, tag2: string)
    requires forall t | t in SafeGetTypes(a) :: !(Carries(t.attributes, tag1) && Carries(t.attributes, tag2))
    ensures GetAssembliesWithClassesWithAttributes([a], tag1, tag2) == []
  {
    assert GetTypesWithAttributes(a, tag1, tag2) == [] by {
      NoMembers(GetTypesWithAttributes(a, tag1, tag2));
    }
    NoMembers(GetAssembliesWithClassesWithAttributes([a], tag1, tag2));
  }

  /** ... while a single-tag scan keeps an assembly that is not blacklisted as soon as one
      of its types carries the tag. */
  lemma EachTagOnSomeType(a: Assembly, tag: string)
    requires !IsBlacklistedAssembly(a)
    requires exists t | t in SafeGetTypes(a) :: Carries(t.attributes, tag)
    ensures GetAssembliesWithClassesWithAttribute([a], tag) == [a]
  {
    var t :| t in SafeGetTypes(a) && Carries(t.attributes, tag);
    assert t in GetTypesWithAttribute(a, tag);
    OnlyMember(GetAssembliesWithClassesWithAttribute([a], tag), a);
  }

  /** A sequence without members is empty. */
  lemma NoMembers<T>(xs: seq<T>)
    requires forall x :: x !in xs
    ensures xs == []
  {
    HeadIsMember(xs);
  }

  lemma HeadIsMember<T>(xs: seq<T>)
    ensures xs != [] ==> xs[0] in xs
  {
  }

  /** A sequence of at most one element that holds x is [x]. */
  lemma OnlyMember<T>(xs: seq<T>, x: T)
    requires |xs| <= 1 && x in xs
    ensures xs == [x]
  {
  }

  /** An assembly whose two tags sit on two different types. */
  const SplitTags: Assembly :=
    Assembly("Quest.Extras", false, Loaded([TypeInfo("A", {"Cheat"}, []), TypeInfo("B", {"MenuItem"}, [])]))

  /** The assembly with the Cheat tag on one type and the MenuItem tag on another is kept
      by each one-tag scan and dropped by the two-tag scan. */
  lemma SplitTagsScans()
    ensures GetAssembliesWithClassesWithAttribute([SplitTags], "Cheat") == [SplitTags]
    ensures GetAssembliesWithClassesWithAttribute([SplitTags], "MenuItem") == [SplitTags]
    ensures GetAssembliesWithClassesWithAttributes([SplitTags], "Cheat", "MenuItem") == []
  {
    var ta, tb := TypeInfo("A", {"Cheat"}, []), TypeInfo("B", {"MenuItem"}, []);
    assert SafeGetTypes(SplitTags) == [ta, tb];
    NotListed(SplitTags);
    assert ta in SafeGetTypes(SplitTags) && tb in SafeGetTypes(SplitTags);
    EachTagOnSomeType(SplitTags, "Cheat");
    EachTagOnSomeType(SplitTags, "MenuItem");
    assert "Cheat" != "MenuItem" by {
      assert |"Cheat"| != |"MenuItem"|;
    }
    assert !Carries(ta.attributes, "MenuItem") && !Carries(tb.attributes, "Cheat");
    BothTagsOnOneType(SplitTags, "Cheat", "MenuItem");
  }

  /** "Quest.Extras" has no listed prefix and mentions neither Unity nor Mono. */
  lemma NotListed(a: Assembly)
    requires a.name == "Quest.Extras" && !a.globalAssemblyCache
    ensures !IsBlacklistedAssembly(a)
  {
    forall i | 0 <= i < |a.name| ensures !OccursAt(a.name, "Unity", i) && !OccursAt(a.name, "Mono", i) {
      assert a.name[i] != 'U' && a.name[i] != 'M';
      if i + 4 <= |a.name| {
        assert a.name[i..i + 4][0] == a.name[i];
      }
    }
    forall prefix | prefix in BlacklistedPrefixes ensures !StartsWith(a.name, prefix) {
      assert prefix[0] != 'Q';
      if |prefix| <= |a.name| {
        assert a.name[..|prefix|][0] == 'Q';
      }
    }
  }

  /** The type scans apply no blacklist: a System assembly yields its tagged types
      although no method of it is ever scanned. */
  lemma TypeScanIgnoresBlacklist()
    ensures var t := TypeInfo("T", {"Cheat"}, [MethodInfo("M", {"Command"})]);
            var a := Assembly("System.Extras", false, Loaded([t]));
            && IsBlacklistedAssembly(a)
            && GetTypesWithAttribute(a, "Cheat") == [t]
            && GetMethodsWithAttribute(a, "Command") == []
  {
    var t := TypeInfo("T", {"Cheat"}, [MethodInfo("M", {"Command"})]);
    var a := Assembly("System.Extras", false, Loaded([t]));
    assert StartsWith(a.name, "System");
    assert "System" in BlacklistedPrefixes;
  }
}
