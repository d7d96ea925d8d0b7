/** The inference inside `createComponentStoriesFile`: from the component
    file's path and its parsed syntax tree to the values the story template
    is rendered with and the directory the story is moved to. */
module ComponentStory {
  import opened Wrappers
  import opened Strings
  import opened Sequences
  import opened SyntaxTree
  import opened Knobs

  /** Where the schematic dereferences `undefined` and throws a `TypeError`. */
  datatype CrashSite =
    | InitializerMissing     // `ts.isArrowFunction(undefined)` on a declaration without initializer
    | PropsParameterMissing  // `propsParam.type` when no parameter is named `props`
    | PropsTypeMissing       // `.typeName` of the missing annotation of `props`
    | PropsTypeNotReference  // `.text` of the `typeName` a non-reference type lacks
    | MemberNameMissing      // `member.name.text` on a member without name (index, call or construct signature)
    | MemberTypeMissing      // `member.type.kind` on a member without type annotation

  datatype Error =
    | FailedToRead(path: string)       // the file does not exist in the tree
    | NoReactComponent(path: string)   // "Could not find any React component in file ..."
    | TypeError(site: CrashSite)

  /** One entry of `props`: member name, knob type, default value. */
  datatype Prop = Prop(name: string, knobType: Option<KnobType>, defaultValue: JsValue)

  datatype PropsInfo = PropsInfo(propsTypeName: string, props: seq<Prop>)

  /** What the schematic hands on: `directory` is `move`'s argument before
      `normalize`, the other fields are the values given to
      `applyTemplates`. */
  datatype StoryPlan = StoryPlan(
    directory: string,
    componentFileName: string,
    propsTypeName: string,
    props: seq<Prop>,
    usedKnobs: string,
    componentName: Option<string>)

  // ---------------------------------------------------------------------
  // Path split

  /** `componentFilePath.replace(componentFilePath.slice(lastIndexOf('/')), '')`:
      removes the FIRST occurrence of the tail that starts at the last `/`.
      Without any `/` the slice starts at -1, so the tail is the last
      character alone. */
  function ComponentDirectory(path: string): (dir: string)
    ensures path == [] ==> dir == []
    ensures path != [] ==> |dir| < |path|
  {
    var tail := SliceFrom(path, LastIndexOf(path, '/'));
    // the tail is a non-empty suffix, so it always occurs
    assert OccursAt(path, tail, |path| - |tail|);
    RemoveFirst(path, tail)
  }

  /** `componentFilePath.slice(lastIndexOf('/') + 1).replace('.tsx', '')`:
      the text after the last `/` with its FIRST `.tsx` removed. */
  function ComponentFileName(path: string): (name: string)
    ensures '/' !in name
    ensures |name| <= |path|
  {
    var last := SliceFrom(path, LastIndexOf(path, '/') + 1);
    NoSlashAfterLast(path);
    RemoveFirstKeepsAbsent(last, ".tsx", '/');
    RemoveFirst(last, ".tsx")
  }

  /** The text after the last `/` holds no `/`. */
  lemma NoSlashAfterLast(path: string)
    ensures '/' !in SliceFrom(path, LastIndexOf(path, '/') + 1)
  {
    var r := LastIndexOf(path, '/');
    var last := SliceFrom(path, r + 1);
    assert last == path[r + 1..];
    forall k | 0 <= k < |last|
      ensures last[k] != '/'
    {
      assert last[k] == path[r + 1 + k];
    }
  }

  /** The last `/` of `dir + base` is the one ending `dir`, if any. */
  lemma LastSlashEndsDirectory(dir: string, base: string)
    requires '/' !in base
    requires dir == [] || dir[|dir| - 1] == '/'
    ensures LastIndexOf(dir + base, '/') == |dir| - 1
  {
    var path := dir + base;
    var r := LastIndexOf(path, '/');
    if dir == [] {
      assert path == base;
    } else {
      assert path[|dir| - 1] == '/';
    }
  }

  /** The file name is the text after the last `/`, first `.tsx` removed. */
  lemma FileNameIsLastSegment(path: string, dir: string, base: string)
    requires path == dir + base && '/' !in base
    requires dir == [] || dir[|dir| - 1] == '/'
    ensures ComponentFileName(path) == RemoveFirst(base, ".tsx")
  {
    LastSlashEndsDirectory(dir, base);
    assert path[|dir|..] == base;
  }

  /** When `.tsx` occurs in the last segment only as its ending, the file
      name is that segment without the extension. */
  lemma FileNameDropsExtension(path: string, dir: string, name: string)
    requires path == dir + name + ".tsx" && '/' !in name
    requires dir == [] || dir[|dir| - 1] == '/'
    requires IndexOf(name + ".tsx", ".tsx") == |name|
    ensures ComponentFileName(path) == name
  {
    var last := name + ".tsx";
    assert path == dir + last;
    FileNameIsLastSegment(path, dir, last);
    RemoveFirstAt(last, ".tsx", |name|);
    assert last[..|name|] == name;
    assert last[|name| + 4..] == [];
  }

  /** The slice taken at the last `/` of `dir/base` is `/base`. */
  lemma TailAfterLastSlash(dir: string, base: string)
    requires '/' !in base
    ensures SliceFrom(dir + "/" + base, LastIndexOf(dir + "/" + base, '/')) == "/" + base
  {
    LastSlashEndsDirectory(dir + "/", base);
    DropPrefix(dir, "/", base);
  }

  /** When the tail `/base` first occurs at the end, the directory is
      exactly the text before the last `/`. */
  lemma DirectoryDropsLastSegment(path: string, dir: string, base: string)
    requires path == dir + "/" + base && '/' !in base
    requires IndexOf(path, "/" + base) == |dir|
    ensures ComponentDirectory(path) == dir
  {
    TailAfterLastSlash(dir, base);
    RemoveFirstAt(path, "/" + base, |dir|);
    assert path[..|dir|] == dir;
  }

  /** Without any `/`, the first occurrence of the last character is removed. */
  lemma DirectoryWithoutSlash(path: string)
    requires |path| > 0 && '/' !in path
    ensures ComponentDirectory(path) == RemoveFirst(path, [path[|path| - 1]])
    ensures ComponentFileName(path) == RemoveFirst(path, ".tsx")
  {
    assert SliceFrom(path, -1) == [path[|path| - 1]];
  }

  /** Directory, `/`, file name and `.tsx` put the path back together when
      neither the tail nor the extension occurs earlier than at the end. */
  lemma PathSplitRoundTrip(path: string, dir: string, name: string)
    requires path == dir + "/" + name + ".tsx" && '/' !in name
    requires IndexOf(path, "/" + name + ".tsx") == |dir|
    requires IndexOf(name + ".tsx", ".tsx") == |name|
    ensures ComponentDirectory(path) + "/" + ComponentFileName(path) + ".tsx" == path
  {
    assert path == dir + "/" + (name + ".tsx");
    assert "/" + name + ".tsx" == "/" + (name + ".tsx");
    DirectoryDropsLastSegment(path, dir, name + ".tsx");
    assert path == (dir + "/") + name + ".tsx";
    FileNameDropsExtension(path, dir + "/", name);
  }

  /** An earlier occurrence of the tail is what gets removed: with
      `pre = "src"`, `base = "a.tsx"` and `mid = "-old"` the directory of
      `src/a.tsx-old/a.tsx` comes out as `src-old/a.tsx` (evidently
      intended: `src/a.tsx-old`). */
  lemma DirectoryRemovesEarlierOccurrence(pre: string, base: string, mid: string)
    requires '/' !in pre && '/' !in base
    ensures ComponentDirectory(pre + "/" + base + mid + "/" + base) == pre + mid + "/" + base
  {
    var tail := "/" + base;
    var x := pre + "/" + base;
    ConcatAssociates(pre, "/", base);
    ConcatAssociates(x + mid, "/", base);
    ConcatAssociates(x, mid, tail);
    // the path is now known as (pre + tail) + (mid + tail)
    TailAfterLastSlash(x + mid, base);
    IndexOfAfterPrefix(pre, tail, mid + tail);
    SpliceOut(pre, tail, mid + tail);
    ConcatAssociates(pre, mid, tail);
    ConcatAssociates(pre + mid, "/", base);
  }

  // ---------------------------------------------------------------------
  // Component declaration

  /** The `.find` callback `x => !!findNodes(x, JsxElement)`. `findNodes`
      returns an array and every array is truthy, so the test holds of every
      declaration, with or without JSX (evidently intended:
      `d.containsJsx`). */
  predicate PassesJsxTest(d: VariableDeclaration) {
    true
  }

  /** The position of the component declaration among the variable
      declarations: the first one, whatever it contains. */
  function SelectComponent(variables: seq<VariableDeclaration>): (r: Option<nat>)
    ensures r.None? <==> |variables| == 0
    ensures r.Some? ==> r.value == 0
  {
    FindIndex(variables, PassesJsxTest)
  }

  // ---------------------------------------------------------------------
  // Props type and interface lookup

  /** The `.find` callback selecting the parameter literally named `props`. */
  predicate IsPropsParameter(p: Parameter) {
    p.name == Some("props")
  }

  /** `(propsParam.type as TypeReferenceNode).typeName.text` */
  function PropsTypeName(p: Parameter): (r: Result<string, Error>)
    ensures r.Success? <==> p.annotation.TypeReference?
    ensures r.Success? ==> r.value == p.annotation.typeName
  {
    match p.annotation
    case NoAnnotation => Failure(TypeError(PropsTypeMissing))
    case OtherAnnotation => Failure(TypeError(PropsTypeNotReference))
    case TypeReference(typeName) => Success(typeName)
  }

  /** `findNodes(sourceFile, InterfaceDeclaration).find(...)` comparing
      each interface's name with `name`: the first interface so called. */
  function FindInterface(interfaces: seq<InterfaceDeclaration>, name: string): (r: Option<nat>)
    ensures r.Some? ==> r.value < |interfaces| && interfaces[r.value].name == name
    ensures r.Some? ==> forall j :: 0 <= j < r.value ==> interfaces[j].name != name
    ensures r.None? <==> forall j :: 0 <= j < |interfaces| ==> interfaces[j].name != name
    decreases |interfaces|
  {
    if |interfaces| == 0 then None
    else if interfaces[0].name == name then Some(0)
    else match FindInterface(interfaces[1..], name)
      case None => None
      case Some(k) => Some(k + 1)
  }

  /** A member the mapping turns into a prop: it has a name and a type. */
  predicate Mappable(m: PropertySignature) {
    m.name.Some? && m.kind.Some?
  }

  /** What mapping an unmappable member throws: the object literal reads
      the member's name before its type. */
  function MemberError(m: PropertySignature): Error
    requires !Mappable(m)
  {
    TypeError(if m.name.None? then MemberNameMissing else MemberTypeMissing)
  }

  /** One member of the props interface mapped to its knob. */
  function MapMember(m: PropertySignature): (r: Result<Prop, Error>)
    ensures r.Success? <==> Mappable(m)
    ensures r.Failure? ==> r.error == MemberError(m)
    ensures r.Success? ==> m.name == Some(r.value.name)
    ensures r.Success? ==> Matches(r.value.knobType, r.value.defaultValue)
  {
    match m.name
    case None => Failure(TypeError(MemberNameMissing))
    case Some(name) =>
      match m.kind
      case None => Failure(TypeError(MemberTypeMissing))
      case Some(kind) => Success(Prop(name, KnobTypeOf(kind), KnobDefaultValue(kind)))
  }

  /** `members[i]` is the first member the mapping cannot turn into a prop,
      and `e` is what it throws. */
  predicate FailsFirstAt(members: seq<PropertySignature>, i: int, e: Error) {
    && 0 <= i < |members|
    && !Mappable(members[i])
    && (forall j :: 0 <= j < i ==> Mappable(members[j]))
    && e == MemberError(members[i])
  }

  /** A first failure in the tail, behind a mappable head, is the first
      failure of the whole sequence one position later. */
  lemma FailsFirstAfterHead(members: seq<PropertySignature>, e: Error)
    requires |members| > 0 && Mappable(members[0])
    requires exists i :: FailsFirstAt(members[1..], i, e)
    ensures exists i :: FailsFirstAt(members, i, e)
  {
    var i :| FailsFirstAt(members[1..], i, e);
    forall j | 0 <= j < i + 1
      ensures Mappable(members[j])
    {
      if j > 0 {
        assert members[j] == members[1..][j - 1];
      }
    }
    assert members[i + 1] == members[1..][i];
    assert FailsFirstAt(members, i + 1, e);
  }

  /** `propsInterface.members.map(...)`: one entry per member, in order,
      names unchanged; the first member without a name or a type throws. */
  function MapMembers(members: seq<PropertySignature>): (r: Result<seq<Prop>, Error>)
    ensures r.Success? <==> forall i :: 0 <= i < |members| ==> Mappable(members[i])
    ensures r.Failure? ==> exists i :: FailsFirstAt(members, i, r.error)
    ensures r.Success? ==> |r.value| == |members|
    ensures r.Success? ==> forall i :: 0 <= i < |members| ==>
              && members[i].name == Some(r.value[i].name)
              && r.value[i].knobType == KnobTypeOf(members[i].kind.value)
              && r.value[i].defaultValue == KnobDefaultValue(members[i].kind.value)
    decreases |members|
  {
    if |members| == 0 then Success([])
    else
      match MapMember(members[0])
      case Failure(e) =>
        assert FailsFirstAt(members, 0, e);
        Failure(e)
      case Success(head) =>
        match MapMembers(members[1..])
        case Failure(e) =>
          FailsFirstAfterHead(members, e);
          Failure(e)
        case Success(tail) => Success([head] + tail)
  }

  /** The "find PropsType" block of `createComponentStoriesFile`: the props
      type name and the props, from the component declaration's
      initializer. */
  function PropsOf(initializer: Initializer, interfaces: seq<InterfaceDeclaration>): (r: Result<PropsInfo, Error>)
    ensures r.Success? ==> forall i :: 0 <= i < |r.value.props| ==>
              Matches(r.value.props[i].knobType, r.value.props[i].defaultValue)
  {
    match initializer
    case NoInitializer => Failure(TypeError(InitializerMissing))
    case OtherInitializer => Success(PropsInfo("", []))
    case ArrowFunction(parameters) =>
      match FindIndex(parameters, IsPropsParameter)
      case None => Failure(TypeError(PropsParameterMissing))
      case Some(k) =>
        var typeName :- PropsTypeName(parameters[k]);
        match FindInterface(interfaces, typeName)
        case None => Success(PropsInfo(typeName, []))
        case Some(j) =>
          var props :- MapMembers(interfaces[j].members);
          Success(PropsInfo(typeName, props))
  }

  // ---------------------------------------------------------------------
  // The whole inference

  /** The knob names of `props`, in order, one per property. */
  function KnobNames(props: seq<Prop>): (names: seq<string>)
    ensures |names| == |props|
    ensures forall i :: 0 <= i < |names| ==> ',' !in names[i]
  {
    seq(|props|, i requires 0 <= i < |props| => KnobName(props[i].knobType))
  }

  /** `props.map(x => x.type).join(', ')` */
  function UsedKnobs(props: seq<Prop>): (usedKnobs: string)
    ensures props == [] ==> usedKnobs == ""
    ensures props != [] ==>
              && StartsWith(usedKnobs, KnobName(props[0].knobType))
              && EndsWith(usedKnobs, KnobName(props[|props| - 1].knobType))
  {
    Join(KnobNames(props), ", ")
  }

  /** The inference of `createComponentStoriesFile`, given the path the
      component is read from and the parsed file (`None` when the tree has
      no such file). */
  function CreateComponentStoriesFile(componentFilePath: string, contents: Option<SourceFile>): (r: Result<StoryPlan, Error>)
    ensures contents.None? ==> r == Failure(FailedToRead(componentFilePath))
    ensures r.Success? ==> contents.Some? && |contents.value.variables| > 0
    ensures r.Success? ==> r.value.componentName == contents.value.variables[0].name
    ensures r.Success? ==> forall i :: 0 <= i < |r.value.props| ==>
              Matches(r.value.props[i].knobType, r.value.props[i].defaultValue)
  {
    match contents
    case None => Failure(FailedToRead(componentFilePath))
    case Some(file) =>
      match SelectComponent(file.variables)
      case None => Failure(NoReactComponent(componentFilePath))
      case Some(c) =>
        var decl := file.variables[c];
        var info :- PropsOf(decl.initializer, file.interfaces);
        Success(StoryPlan(
          ComponentDirectory(componentFilePath), ComponentFileName(componentFilePath),
          info.propsTypeName, info.props, UsedKnobs(info.props), decl.name))
  }

  // ---------------------------------------------------------------------
  // Properties of the whole inference

  /** The error "Could not find any React component" is raised exactly when
      the file declares no variable at all. */
  lemma NoComponentIffNoDeclarations(path: string, file: SourceFile)
    ensures CreateComponentStoriesFile(path, Some(file)) == Failure(NoReactComponent(path))
            <==> |file.variables| == 0
  {
  }

  /** The component is the first variable declaration: its name is the
      component name and its initializer alone decides the props, and any
      failure there is the run's failure. */
  lemma ComponentIsFirstDeclaration(path: string, file: SourceFile)
    requires |file.variables| > 0
    ensures var r := CreateComponentStoriesFile(path, Some(file));
            var info := PropsOf(file.variables[0].initializer, file.interfaces);
            && (info.Failure? ==> r == Failure(info.error))
            && (info.Success? ==>
                  r == Success(StoryPlan(
                         ComponentDirectory(path), ComponentFileName(path),
                         info.value.propsTypeName, info.value.props, UsedKnobs(info.value.props),
                         file.variables[0].name)))
  {
  }

  /** Whether the first declaration contains JSX, and every later
      declaration, make no difference to the run. */
  lemma OnlyFirstDeclarationMatters(path: string, a: SourceFile, b: SourceFile)
    requires |a.variables| > 0 && |b.variables| > 0
    requires a.variables[0].name == b.variables[0].name
    requires a.variables[0].initializer == b.variables[0].initializer
    requires a.interfaces == b.interfaces
    ensures CreateComponentStoriesFile(path, Some(a)) == CreateComponentStoriesFile(path, Some(b))
  {
    ComponentIsFirstDeclaration(path, a);
    ComponentIsFirstDeclaration(path, b);
  }

  /** `usedKnobs` lists the knob of every prop, in order, duplicates and
      all: splitting it at `, ` gives back one name per prop. */
  lemma UsedKnobsListsEveryProp(props: seq<Prop>)
    ensures props == [] ==> UsedKnobs(props) == ""
    ensures props != [] ==>
              && Split(UsedKnobs(props), ", ") == KnobNames(props)
              && forall i :: 0 <= i < |props| ==>
                   Split(UsedKnobs(props), ", ")[i] == KnobName(props[i].knobType)
  {
    if props != [] {
      SplitJoin(KnobNames(props), ", ");
    }
  }

  // ---------------------------------------------------------------------
  // Properties of the props lookup

  /** `k` is the first parameter literally named `props`. */
  predicate IsFirstPropsParameter(ps: seq<Parameter>, k: nat) {
    && k < |ps|
    && ps[k].name == Some("props")
    && forall j :: 0 <= j < k ==> ps[j].name != Some("props")
  }

  /** `j` is the first interface called `name`. */
  predicate IsFirstInterfaceNamed(interfaces: seq<InterfaceDeclaration>, name: string, j: nat) {
    && j < |interfaces|
    && interfaces[j].name == name
    && forall i :: 0 <= i < j ==> interfaces[i].name != name
  }

  lemma FirstPropsParameterFound(ps: seq<Parameter>, k: nat)
    requires IsFirstPropsParameter(ps, k)
    ensures FindIndex(ps, IsPropsParameter) == Some(k)
  {
    assert IsPropsParameter(ps[k]);
  }

  /** A component whose initializer is not an arrow function gets an empty
      props type name and no props; one without initializer crashes. */
  lemma NonArrowInitializer(initializer: Initializer, interfaces: seq<InterfaceDeclaration>)
    requires !initializer.ArrowFunction?
    ensures initializer.NoInitializer? ==>
              PropsOf(initializer, interfaces) == Failure(TypeError(InitializerMissing))
    ensures initializer.OtherInitializer? ==>
              PropsOf(initializer, interfaces) == Success(PropsInfo("", []))
  {
  }

  /** An arrow component without a parameter named `props` crashes; it
      does not get an empty props list. */
  lemma MissingPropsParameterCrashes(ps: seq<Parameter>, interfaces: seq<InterfaceDeclaration>)
    requires forall j :: 0 <= j < |ps| ==> ps[j].name != Some("props")
    ensures PropsOf(ArrowFunction(ps), interfaces) == Failure(TypeError(PropsParameterMissing))
  {
  }

  /** A first `props` parameter without a type reference crashes too. */
  lemma UntypedPropsParameterCrashes(ps: seq<Parameter>, interfaces: seq<InterfaceDeclaration>, k: nat)
    requires IsFirstPropsParameter(ps, k) && !ps[k].annotation.TypeReference?
    ensures PropsOf(ArrowFunction(ps), interfaces) ==
            Failure(TypeError(if ps[k].annotation.NoAnnotation? then PropsTypeMissing else PropsTypeNotReference))
  {
    FirstPropsParameterFound(ps, k);
  }

  /** No interface named like the props type: no props, and no error. */
  lemma UnresolvedPropsType(ps: seq<Parameter>, interfaces: seq<InterfaceDeclaration>, k: nat, typeName: string)
    requires IsFirstPropsParameter(ps, k) && ps[k].annotation == TypeReference(typeName)
    requires forall i :: 0 <= i < |interfaces| ==> interfaces[i].name != typeName
    ensures PropsOf(ArrowFunction(ps), interfaces) == Success(PropsInfo(typeName, []))
  {
    FirstPropsParameterFound(ps, k);
  }

  /** The first interface named like the props type supplies the props:
      one per member, in declaration order, names unchanged; the run fails
      exactly when a member has no name or no type, with the error of the
      first such member. */
  lemma PropsFollowInterfaceMembers(
    ps: seq<Parameter>, interfaces: seq<InterfaceDeclaration>, k: nat, typeName: string, j: nat)
    requires IsFirstPropsParameter(ps, k) && ps[k].annotation == TypeReference(typeName)
    requires IsFirstInterfaceNamed(interfaces, typeName, j)
    ensures var r := PropsOf(ArrowFunction(ps), interfaces);
            var members := interfaces[j].members;
            && (r.Success? <==> forall i :: 0 <= i < |members| ==> Mappable(members[i]))
            && (r.Failure? ==> exists i :: FailsFirstAt(members, i, r.error))
            && (r.Success? ==>
                  && r.value.propsTypeName == typeName
                  && |r.value.props| == |members|
                  && forall i :: 0 <= i < |members| ==>
                       && members[i].name == Some(r.value.props[i].name)
                       && r.value.props[i].knobType == KnobTypeOf(members[i].kind.value)
                       && r.value.props[i].defaultValue == KnobDefaultValue(members[i].kind.value))
  {
    FirstPropsParameterFound(ps, k);
    assert FindInterface(interfaces, typeName) == Some(j);
  }

  lemma StringThenBooleanMapped(a: string, b: string)
    ensures MapMembers([PropertySignature(Some(a), Some(StringKeyword)), PropertySignature(Some(b), Some(BooleanKeyword))])
            == Success([Prop(a, Some(Text), JsString("''")), Prop(b, Some(Boolean), JsBoolean(false))])
  {
    var m0, m1 := PropertySignature(Some(a), Some(StringKeyword)), PropertySignature(Some(b), Some(BooleanKeyword));
    var p0, p1 := Prop(a, Some(Text), JsString("''")), Prop(b, Some(Boolean), JsBoolean(false));
    assert MapMember(m0) == Success(p0);
    assert MapMember(m1) == Success(p1);
    assert MapMembers([m1]) == Success([p1]) by {
      assert [m1][1..] == [];
      assert MapMembers([]) == Success([]);
      assert [p1] + [] == [p1];
    }
    assert [m0, m1][1..] == [m1];
    assert [p0] + [p1] == [p0, p1];
  }

  lemma TextThenBooleanKnobs(a: string, b: string)
    ensures UsedKnobs([Prop(a, Some(Text), JsString("''")), Prop(b, Some(Boolean), JsBoolean(false))]) == "text, boolean"
  {
    var props := [Prop(a, Some(Text), JsString("''")), Prop(b, Some(Boolean), JsBoolean(false))];
    var names := KnobNames(props);
    assert names[0] == "text" && names[1] == "boolean";
    assert names == ["text", "boolean"];
    assert names[1..] == ["boolean"];
    assert Join(names, ", ") == "text" + ", " + "boolean";
  }

  /** The scenario of the schematic's own test, for any names: a props
      interface with a string member and then a boolean member (there
      `name` and `displayAge`) gives a text knob defaulting to `''` and a
      boolean knob defaulting to `false`, listed as `text, boolean`. */
  lemma StringThenBooleanMembers(
    ps: seq<Parameter>, interfaces: seq<InterfaceDeclaration>, k: nat, typeName: string, j: nat, a: string, b: string)
    requires IsFirstPropsParameter(ps, k) && ps[k].annotation == TypeReference(typeName)
    requires IsFirstInterfaceNamed(interfaces, typeName, j)
    requires interfaces[j].members == [PropertySignature(Some(a), Some(StringKeyword)), PropertySignature(Some(b), Some(BooleanKeyword))]
    ensures var props := [Prop(a, Some(Text), JsString("''")), Prop(b, Some(Boolean), JsBoolean(false))];
            && PropsOf(ArrowFunction(ps), interfaces) == Success(PropsInfo(typeName, props))
            && UsedKnobs(props) == "text, boolean"
  {
    FirstPropsParameterFound(ps, k);
    assert PropsTypeName(ps[k]) == Success(typeName);
    assert FindInterface(interfaces, typeName) == Some(j);
    StringThenBooleanMapped(a, b);
    TextThenBooleanKnobs(a, b);
  }
}
