/**
 * The read-only documentation model the DEF generator walks: members with their
 * argument lists, enum fields and cross-references, and the classes, namespaces
 * and files that own them. Results of helpers whose bodies are not part of this
 * model (getOutputFileBase, anchor, compoundTypeString, replaceAnonymousScopes,
 * stringToArgumentList, getScopeString, DotClassGraph) are given as fields.
 */
module DefModel {
  import opened Wrappers

  datatype MemberType =
    | Define | Function | Variable | Typedef | Enumeration | EnumValue
    | Signal | Slot | Friend | DCOP | Property | Event
    | Interface | Service | Sequence | Dictionary

  /** Virtualness of a member or of an inheritance relation. */
  datatype Specifier = Normal | Virtual | Pure

  datatype Protection = Public | Protected | Private | Package

  /** One formal parameter; an empty string stands for an absent part. */
  datatype Argument = Argument(attrib: string, typeText: string, name: string, arraySuffix: string, defval: string)

  /** A member of an enumeration, rendered inside its owner's record. */
  datatype EnumField = EnumField(name: string, initializer: string)

  /** A member that another member references or is referenced by.
      `bodyDef` is the output-file base of the definition holding its body, None when
      that definition is unknown; `scope` is the result of getScopeString. */
  datatype Reference = Reference(startBodyLine: int, bodyDef: Option<string>, anchor: string, scope: string, name: string)

  datatype Member = Member(
    memberType: MemberType,
    outputFileBase: string,
    anchor: string,
    virtualness: Specifier,
    protection: Protection,
    typeString: string,             // already passed through replaceAnonymousScopes
    name: string,
    argsString: Option<string>,     // None: the member has no argument string
    argumentList: seq<Argument>,    // the arguments of the defining occurrence
    declArgumentList: seq<Argument>, // the arguments parsed from the declaration's argument string
    initializer: string,
    enumFields: seq<EnumField>,
    defFileName: string,
    defLine: int,
    briefDescription: string,
    documentation: string,
    references: seq<Reference>,
    referencedBy: seq<Reference>)

  /** The kinds of member lists an entity can hold. Only the ones the generator asks
      for by name are spelled out; any other list is `OtherList`, whose flag says
      whether its type carries the detailed-documentation bit. */
  datatype ListType =
    | PubTypes | Interfaces | Services | PubMethods | PubAttribs | PubSlots | Signals
    | DcopMethods | Properties | PubStaticMethods | PubStaticAttribs
    | ProTypes | ProMethods | ProAttribs | ProSlots | ProStaticMethods | ProStaticAttribs
    | PriTypes | PriMethods | PriAttribs | PriSlots | PriStaticMethods | PriStaticAttribs
    | Friends | Related
    | DecDefineMembers | DecProtoMembers | DecTypedefMembers | DecSequenceMembers
    | DecDictionaryMembers | DecEnumMembers | DecFuncMembers | DecVarMembers
    | OtherList(code: nat, detailed: bool)

  predicate IsDetailed(lt: ListType)
  {
    lt.OtherList? && lt.detailed
  }

  datatype MemberList = MemberList(listType: ListType, members: seq<Member>)

  /** An inheritance relation: the related class's output-file base, how it is inherited. */
  datatype BaseClass = BaseClass(classBase: string, prot: Protection, virt: Specifier)

  /** What the generator needs of an inheritance or collaboration graph. */
  datatype DotGraph = DotGraph(isTrivial: bool, defText: string)

  datatype ClassDef = ClassDef(
    isReference: bool,
    name: string,
    hasTemplateMaster: bool,
    compoundTypeString: string,
    outputFileBase: string,
    baseClasses: seq<BaseClass>,
    subClasses: seq<BaseClass>,
    memberLists: seq<MemberList>,
    defFileName: string,
    defLine: int,
    briefDescription: string,
    documentation: string,
    inheritanceGraph: DotGraph,
    collaborationGraph: DotGraph)

  datatype NamespaceDef = NamespaceDef(
    isReference: bool,
    name: string,
    outputFileBase: string,
    memberLists: seq<MemberList>,
    defFileName: string,
    defLine: int,
    briefDescription: string,
    documentation: string)

  datatype FileDef = FileDef(
    isReference: bool,
    name: string,
    outputFileBase: string,
    memberLists: seq<MemberList>,
    defFileName: string,
    defLine: int,
    briefDescription: string,
    documentation: string)

  /** The whole model: every class, the input files grouped by file name, every namespace. */
  datatype Model = Model(classes: seq<ClassDef>, fileNames: seq<seq<FileDef>>, namespaces: seq<NamespaceDef>)

  /** getMemberList: the first list of the given type, None when there is none. */
  function FindList(lists: seq<MemberList>, lt: ListType): (r: Option<seq<Member>>)
    ensures r.None? <==> forall i :: 0 <= i < |lists| ==> lists[i].listType != lt
    ensures r.Some? ==> exists i :: 0 <= i < |lists| && lists[i].listType == lt && lists[i].members == r.value
                                    && forall j :: 0 <= j < i ==> lists[j].listType != lt
  {
    if lists == [] then None
    else if lists[0].listType == lt then Some(lists[0].members)
    else FindList(lists[1..], lt)
  }

}
