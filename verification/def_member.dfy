/**
 * generateDEFForMember: one member record. The record's keys carry the caller's
 * prefix (`sec` inside a class section, the section label inside a namespace or
 * file), so a member of a class writes `sec-member = { sec-mem-kind = ...; ... };`.
 */
module DefMember {
  import opened Wrappers
  import opened DefText
  import opened DefModel
  import opened Seqs

  /** The tag of the member's kind; an enum value is never rendered on its own. */
  /** The `kind` line of a member record. Enumeration values never reach this
      switch (their scope writes them inside the enum), so they get no tag. */
  function KindTag(t: MemberType): (r: string)
    ensures r == "" <==> t == EnumValue
  {
    match t
    case Define => "define"
    case EnumValue => ""
    case Property => "property"
    case Event => "event"
    case Variable => "variable"
    case Typedef => "typedef"
    case Enumeration => "enum"
    case Interface => "interface"
    case Service => "service"
    case Sequence => "sequence"
    case Dictionary => "dictionary"
    case Function => "function"
    case Signal => "signal"
    case Friend => "friend"
    case DCOP => "dcop"
    case Slot => "slot"
  }

  /** The kinds that are rendered with a parameter list (the `isFunc` flag). */
  predicate IsFunc(t: MemberType)
  {
    match t
    case Function | Signal | Friend | DCOP | Slot => true
    case _ => false
  }

  /** The kinds written with a parameter list, by their `kind` tag. */
  const FuncTags: set<string> := {"function", "signal", "friend", "dcop", "slot"}

  /** Reads a `kind` tag back to the member type it was written for. */
  function KindOf(tag: string): Option<MemberType>
  {
    if tag == "define" then Some(Define)
    else if tag == "property" then Some(Property)
    else if tag == "event" then Some(Event)
    else if tag == "variable" then Some(Variable)
    else if tag == "typedef" then Some(Typedef)
    else if tag == "enum" then Some(Enumeration)
    else if tag == "interface" then Some(Interface)
    else if tag == "service" then Some(Service)
    else if tag == "sequence" then Some(Sequence)
    else if tag == "dictionary" then Some(Dictionary)
    else if tag == "function" then Some(Function)
    else if tag == "signal" then Some(Signal)
    else if tag == "friend" then Some(Friend)
    else if tag == "dcop" then Some(DCOP)
    else if tag == "slot" then Some(Slot)
    else None
  }

  /** The `kind` line names the member type: reading it back gives the type, and
      the type carries a parameter list exactly when its tag is a callable one. */
  lemma KindTagReadsBack(t: MemberType)
    requires t != EnumValue
    ensures KindOf(KindTag(t)) == Some(t)
    ensures IsFunc(t) <==> KindTag(t) in FuncTags
  {
  }

  /** Distinct member types get distinct `kind` tags. */
  lemma KindTagInjective(a: MemberType, b: MemberType)
    ensures KindTag(a) == KindTag(b) ==> a == b
  {
    if a != EnumValue && b != EnumValue {
      KindTagReadsBack(a);
      KindTagReadsBack(b);
    }
  }

  function VirtTag(v: Specifier): string
  {
    match v
    case Normal => "normal"
    case Virtual => "virtual"
    case Pure => "pure-virtual"
  }

  function ProtTag(p: Protection): string
  {
    match p
    case Public => "public"
    case Protected => "protected"
    case Private => "private"
    case Package => "package"
  }

  /** The prefix of every field key inside a member record. */
  function MemPrefix(prefix: string): string
  {
    prefix + "-mem-"
  }

  function MemberKey(prefix: string): Key
  {
    Key(prefix, "-member")
  }

  function MemKey(prefix: string, tag: string): Key
  {
    Key(MemPrefix(prefix), tag)
  }

  function ParamKey(prefix: string, tag: string): Key
  {
    Key(MemPrefix(prefix) + "param-", tag)
  }

  /** A field that is written only when `present` holds. */
  function OptField(present: bool, f: Field): (r: seq<Field>)
    ensures |r| <= 1
  {
    if present then [f] else []
  }

  lemma ValuesOpt(present: bool, f: Field, k: Key)
    ensures Values(OptField(present, f), k) == if present && f.key == k then [f.value] else []
  {
  }

  // ---------------------------------------------------------------------------
  // Parameters
  // ---------------------------------------------------------------------------

  /** The defining occurrence's name for a parameter, when it has one that differs
      from the declared name. */
  function DefName(a: Argument, defArg: Option<Argument>): Option<string>
  {
    if defArg.Some? && defArg.value.name != "" && defArg.value.name != a.name then Some(defArg.value.name) else None
  }

  /** A slot filled with `v` exactly when `text` is non-empty. */
  function TextSlot(k: Key, text: string, v: Value): Slot
  {
    (k, if text != "" then Some(v) else None)
  }

  /** The six optional parts of one `param` block of a callable member, in the order
      they are written. */
  function ParamSlots(a: Argument, defArg: Option<Argument>, prefix: string): seq<Slot>
  {
    var defName := DefName(a, defArg);
    [ TextSlot(ParamKey(prefix, "attributes"), a.attrib, Quoted(a.attrib)),
      TextSlot(ParamKey(prefix, "type"), a.typeText, Literal(a.typeText)),
      TextSlot(ParamKey(prefix, "declname"), a.name, Quoted(a.name)),
      (ParamKey(prefix, "defname"), if defName.Some? then Some(Quoted(defName.value)) else None),
      TextSlot(ParamKey(prefix, "array"), a.arraySuffix, Quoted(a.arraySuffix)),
      TextSlot(ParamKey(prefix, "defval"), a.defval, Literal(a.defval)) ]
  }

  function ParamBody(a: Argument, defArg: Option<Argument>, prefix: string): seq<Field>
  {
    Written(ParamSlots(a, defArg, prefix))
  }

  /** Each part of a parameter is written only when it is non-empty; `defname` only
      when the defining occurrence names the parameter differently. */
  lemma ParamBodyShape(a: Argument, defArg: Option<Argument>, prefix: string)
    ensures var fs := ParamBody(a, defArg, prefix);
      && Values(fs, ParamKey(prefix, "attributes")) == (if a.attrib != "" then [Quoted(a.attrib)] else [])
      && Values(fs, ParamKey(prefix, "type")) == (if a.typeText != "" then [Literal(a.typeText)] else [])
      && Values(fs, ParamKey(prefix, "declname")) == (if a.name != "" then [Quoted(a.name)] else [])
      && Values(fs, ParamKey(prefix, "defname"))
         == (if defArg.Some? && defArg.value.name != "" && defArg.value.name != a.name then [Quoted(defArg.value.name)] else [])
      && Values(fs, ParamKey(prefix, "array")) == (if a.arraySuffix != "" then [Quoted(a.arraySuffix)] else [])
      && Values(fs, ParamKey(prefix, "defval")) == (if a.defval != "" then [Literal(a.defval)] else [])
  {
    var slots := ParamSlots(a, defArg, prefix);
    assert forall i, j :: 0 <= i < |slots| && 0 <= j < |slots| && i != j ==> slots[i].0 != slots[j].0;
    WrittenValues(slots, 0);
    WrittenValues(slots, 1);
    WrittenValues(slots, 2);
    WrittenValues(slots, 3);
    WrittenValues(slots, 4);
    WrittenValues(slots, 5);
  }

  /** The declared arguments paired by position with the defining ones: the declared
      list is walked while an iterator over the defining list advances in step, and
      a declared argument beyond the defining list's end gets no partner. */
  function ArgumentPairs(decl: seq<Argument>, def: seq<Argument>): (r: seq<(Argument, Option<Argument>)>)
    ensures |r| == |decl|
    ensures forall i :: 0 <= i < |r| ==> r[i] == (decl[i], if i < |def| then Some(def[i]) else None)
  {
    if decl == [] then []
    else
      var defArg := if def == [] then None else Some(def[0]);
      var defRest := if def == [] then [] else def[1..];
      [(decl[0], defArg)] + ArgumentPairs(decl[1..], defRest)
  }

  /** The `param` blocks of a callable, one per declared argument. */
  function CallableParams(decl: seq<Argument>, def: seq<Argument>, prefix: string): seq<Field>
  {
    var pairs := ArgumentPairs(decl, def);
    seq(|pairs|, i requires 0 <= i < |pairs| => Field(MemKey(prefix, "param"), Block(ParamBody(pairs[i].0, pairs[i].1, prefix))))
  }

  /** The `param` blocks of a define: one per argument, naming it by its type text. */
  function DefineParams(args: seq<Argument>, prefix: string): seq<Field>
  {
    seq(|args|, i requires 0 <= i < |args| =>
      Field(MemKey(prefix, "param"), Block([Field(Key(MemPrefix(prefix) + "def-", "name"), RawQuoted(args[i].typeText))])))
  }

  function ParamFields(md: Member, prefix: string): seq<Field>
  {
    if IsFunc(md.memberType) then CallableParams(md.declArgumentList, md.argumentList, prefix)
    else if md.memberType == Define && md.argsString.Some? then DefineParams(md.argumentList, prefix)
    else []
  }

  // ---------------------------------------------------------------------------
  // Enum fields and references
  // ---------------------------------------------------------------------------

  function EnumBody(e: EnumField): (r: seq<Field>)
    ensures Values(r, Key("enum-", "name")) == [Bare(e.name)]
    ensures Values(r, Key("enum-", "value")) == if e.initializer != "" then [Quoted(e.initializer)] else []
  {
    var name := [Field(Key("enum-", "name"), Bare(e.name))];
    var value := OptField(e.initializer != "", Field(Key("enum-", "value"), Quoted(e.initializer)));
    ValuesAppend(name, value, Key("enum-", "name"));
    ValuesAppend(name, value, Key("enum-", "value"));
    ValuesOpt(e.initializer != "", Field(Key("enum-", "value"), Quoted(e.initializer)), Key("enum-", "name"));
    ValuesOpt(e.initializer != "", Field(Key("enum-", "value"), Quoted(e.initializer)), Key("enum-", "value"));
    name + value
  }

  function EnumRecords(md: Member, prefix: string): seq<Field>
  {
    if md.memberType == Enumeration then
      seq(|md.enumFields|, i requires 0 <= i < |md.enumFields| =>
        Field(MemKey(prefix, "enum"), Inline(EnumBody(md.enumFields[i]))))
    else []
  }

  /** Only references whose target has a known body location are written. */
  predicate Resolvable(r: Reference)
  {
    r.startBodyLine != -1 && r.bodyDef.Some?
  }

  function ResolvableRefs(refs: seq<Reference>): seq<Reference>
  {
    Filter(refs, Resolvable)
  }

  /** The referenced member's name, qualified by its scope when that scope is neither
      empty nor the definition whose record is being written. */
  function QualifiedName(r: Reference, defName: string): (q: string)
    ensures q == r.name || q == r.scope + "::" + r.name
    ensures q != r.name <==> (r.scope != "" && r.scope != defName)
  {
    if r.scope != "" && r.scope != defName then r.scope + "::" + r.name else r.name
  }

  function RefBody(r: Reference, defName: string, prefix: string): seq<Field>
    requires Resolvable(r)
  {
    var rp := MemPrefix(prefix) + "ref-";
    [ Field(Key(rp, "id"), RawQuoted(r.bodyDef.value + "_1" + r.anchor)),
      Field(Key(rp, "line"), RawQuoted(IntToString(r.startBodyLine))),
      Field(Key(rp, "name"), Quoted(QualifiedName(r, defName))) ]
  }

  /** The `referenceto`/`referencedby` records for a reference list, in list order;
      unresolvable entries write nothing. */
  function ReferenceRecords(refs: seq<Reference>, defName: string, prefix: string, tag: string): (r: seq<Field>)
    ensures var kept := ResolvableRefs(refs);
      && |r| == |kept|
      && forall i :: 0 <= i < |r| ==> r[i] == Field(MemKey(prefix, tag), Block(RefBody(kept[i], defName, prefix)))
  {
    if refs == [] then []
    else
      (if Resolvable(refs[0]) then [Field(MemKey(prefix, tag), Block(RefBody(refs[0], defName, prefix)))] else [])
      + ReferenceRecords(refs[1..], defName, prefix, tag)
  }

  // ---------------------------------------------------------------------------
  // The member record
  // ---------------------------------------------------------------------------

  function HeadFields(md: Member, prefix: string): seq<Field>
  {
    [ Field(MemKey(prefix, "kind"), RawQuoted(KindTag(md.memberType))),
      Field(MemKey(prefix, "id"), RawQuoted(md.outputFileBase + "_1" + md.anchor)),
      Field(MemKey(prefix, "virt"), Bare(VirtTag(md.virtualness))),
      Field(MemKey(prefix, "prot"), Bare(ProtTag(md.protection))) ]
  }

  function TypeFields(md: Member, prefix: string): seq<Field>
  {
    OptField(md.memberType != Define && md.memberType != Enumeration,
             Field(MemKey(prefix, "type"), Literal(md.typeString)))
  }

  function NameFields(md: Member, prefix: string): seq<Field>
  {
    [Field(MemKey(prefix, "name"), RawQuoted(md.name))]
  }

  function InitializerFields(md: Member, prefix: string): seq<Field>
  {
    OptField(md.initializer != "", Field(MemKey(prefix, "initializer"), Literal(md.initializer)))
  }

  function DescFields(md: Member, prefix: string): seq<Field>
  {
    [ Field(MemKey(prefix, "desc-file"), RawQuoted(md.defFileName)),
      Field(MemKey(prefix, "desc-line"), RawQuoted(IntToString(md.defLine))),
      Field(MemKey(prefix, "briefdesc"), Literal(md.briefDescription)),
      Field(MemKey(prefix, "documentation"), Literal(md.documentation)) ]
  }

  /** The fields of a member record, in the order they are written. */
  function MemberFields(md: Member, defName: string, prefix: string): seq<Field>
  {
    HeadFields(md, prefix)
    + TypeFields(md, prefix)
    + NameFields(md, prefix)
    + ParamFields(md, prefix)
    + InitializerFields(md, prefix)
    + EnumRecords(md, prefix)
    + DescFields(md, prefix)
    + ReferenceRecords(md.references, defName, prefix, "referenceto")
    + ReferenceRecords(md.referencedBy, defName, prefix, "referencedby")
  }

  /** Every line of a member record is written after the member prefix, and the record
      opens with its `kind` line. */
  lemma MemberFieldsPrefixed(md: Member, defName: string, prefix: string)
    ensures var fs := MemberFields(md, defName, prefix);
      && AllPrefixed(fs, MemPrefix(prefix))
      && fs[0] == Field(MemKey(prefix, "kind"), RawQuoted(KindTag(md.memberType)))
  {
    var mp := MemPrefix(prefix);
    var h := HeadFields(md, prefix);
    var t := TypeFields(md, prefix);
    var n := NameFields(md, prefix);
    var pa := ParamFields(md, prefix);
    var ini := InitializerFields(md, prefix);
    var en := EnumRecords(md, prefix);
    var d := DescFields(md, prefix);
    var rt := ReferenceRecords(md.references, defName, prefix, "referenceto");
    var rb := ReferenceRecords(md.referencedBy, defName, prefix, "referencedby");
    assert AllPrefixed(pa, mp);
    assert AllPrefixed(rt, mp);
    assert AllPrefixed(rb, mp);
    PrefixedJoin(h, t, n, pa, ini, en, d, rt, rb, mp);
    assert (h + t + n + pa + ini + en + d + rt + rb)[0] == h[0];
  }

  /** Nine prefixed parts join into a prefixed whole. */
  lemma PrefixedJoin(a: seq<Field>, b: seq<Field>, c: seq<Field>, d: seq<Field>, e: seq<Field>,
                     f: seq<Field>, g: seq<Field>, h: seq<Field>, i: seq<Field>, p: string)
    requires AllPrefixed(a, p) && AllPrefixed(b, p) && AllPrefixed(c, p) && AllPrefixed(d, p) && AllPrefixed(e, p)
    requires AllPrefixed(f, p) && AllPrefixed(g, p) && AllPrefixed(h, p) && AllPrefixed(i, p)
    ensures AllPrefixed(a + b + c + d + e + f + g + h + i, p)
  {
    PrefixedAppend(a, b, p);
    PrefixedAppend(a + b, c, p);
    PrefixedAppend(a + b + c, d, p);
    PrefixedAppend(a + b + c + d, e, p);
    PrefixedAppend(a + b + c + d + e, f, p);
    PrefixedAppend(a + b + c + d + e + f, g, p);
    PrefixedAppend(a + b + c + d + e + f + g, h, p);
    PrefixedAppend(a + b + c + d + e + f + g + h, i, p);
  }

  lemma PrefixedAppend(a: seq<Field>, b: seq<Field>, p: string)
    requires AllPrefixed(a, p) && AllPrefixed(b, p)
    ensures AllPrefixed(a + b, p)
  {
  }

  /** generateDEFForMember: an enum value writes nothing, any other member one record. */
  function MemberRecord(md: Member, defName: string, prefix: string): (r: seq<Field>)
    ensures r == [] <==> md.memberType == EnumValue
    ensures |r| <= 1
    ensures forall i :: 0 <= i < |r| ==> r[i] == Field(MemberKey(prefix), Block(MemberFields(md, defName, prefix)))
  {
    if md.memberType == EnumValue then []
    else [Field(MemberKey(prefix), Block(MemberFields(md, defName, prefix)))]
  }

  /** Values of a member record split along its parts. */
  lemma MemberValues(md: Member, defName: string, prefix: string, k: Key)
    ensures Values(MemberFields(md, defName, prefix), k)
         == Values(HeadFields(md, prefix), k)
          + Values(TypeFields(md, prefix), k)
          + Values(NameFields(md, prefix), k)
          + Values(ParamFields(md, prefix), k)
          + Values(InitializerFields(md, prefix), k)
          + Values(EnumRecords(md, prefix), k)
          + Values(DescFields(md, prefix), k)
          + Values(ReferenceRecords(md.references, defName, prefix, "referenceto"), k)
          + Values(ReferenceRecords(md.referencedBy, defName, prefix, "referencedby"), k)
  {
    var p1 := HeadFields(md, prefix);
    var p2 := TypeFields(md, prefix);
    var p3 := NameFields(md, prefix);
    var p4 := ParamFields(md, prefix);
    var p5 := InitializerFields(md, prefix);
    var p6 := EnumRecords(md, prefix);
    var p7 := DescFields(md, prefix);
    var p8 := ReferenceRecords(md.references, defName, prefix, "referenceto");
    var p9 := ReferenceRecords(md.referencedBy, defName, prefix, "referencedby");
    ValuesAppend(p1, p2, k);
    ValuesAppend(p1 + p2, p3, k);
    ValuesAppend(p1 + p2 + p3, p4, k);
    ValuesAppend(p1 + p2 + p3 + p4, p5, k);
    ValuesAppend(p1 + p2 + p3 + p4 + p5, p6, k);
    ValuesAppend(p1 + p2 + p3 + p4 + p5 + p6, p7, k);
    ValuesAppend(p1 + p2 + p3 + p4 + p5 + p6 + p7, p8, k);
    ValuesAppend(p1 + p2 + p3 + p4 + p5 + p6 + p7 + p8, p9, k);
  }

  /** A query for a key of a list part of a member record sees nothing of the
      scalar parts. */
  lemma HeadFieldsOff(md: Member, prefix: string, k: Key)
    requires k.tag != "kind" && k.tag != "id" && k.tag != "virt" && k.tag != "prot"
    ensures Values(HeadFields(md, prefix), k) == []
  {
    ValuesAbsent(HeadFields(md, prefix), k);
  }

  lemma NameFieldsOff(md: Member, prefix: string, k: Key)
    requires k.tag != "name"
    ensures Values(NameFields(md, prefix), k) == []
  {
    ValuesAbsent(NameFields(md, prefix), k);
  }

  lemma DescFieldsOff(md: Member, prefix: string, k: Key)
    requires k.tag != "desc-file" && k.tag != "desc-line" && k.tag != "briefdesc" && k.tag != "documentation"
    ensures Values(DescFields(md, prefix), k) == []
  {
    ValuesAbsent(DescFields(md, prefix), k);
  }

  lemma TypeFieldsOff(md: Member, prefix: string, k: Key)
    requires k != MemKey(prefix, "type")
    ensures Values(TypeFields(md, prefix), k) == []
  {
    ValuesOpt(md.memberType != Define && md.memberType != Enumeration, Field(MemKey(prefix, "type"), Literal(md.typeString)), k);
  }

  lemma ParamFieldsOff(md: Member, prefix: string, k: Key)
    requires k != MemKey(prefix, "param")
    ensures Values(ParamFields(md, prefix), k) == []
  {
    ValuesOtherKey(ParamFields(md, prefix), MemKey(prefix, "param"), k);
  }

  lemma InitializerFieldsOff(md: Member, prefix: string, k: Key)
    requires k != MemKey(prefix, "initializer")
    ensures Values(InitializerFields(md, prefix), k) == []
  {
    ValuesOpt(md.initializer != "", Field(MemKey(prefix, "initializer"), Literal(md.initializer)), k);
  }

  lemma EnumRecordsOff(md: Member, prefix: string, k: Key)
    requires k != MemKey(prefix, "enum")
    ensures Values(EnumRecords(md, prefix), k) == []
  {
    ValuesOtherKey(EnumRecords(md, prefix), MemKey(prefix, "enum"), k);
  }

  lemma ReferenceRecordsOff(refs: seq<Reference>, defName: string, prefix: string, tag: string, k: Key)
    requires k != MemKey(prefix, tag)
    ensures Values(ReferenceRecords(refs, defName, prefix, tag), k) == []
  {
    ValuesOtherKey(ReferenceRecords(refs, defName, prefix, tag), MemKey(prefix, tag), k);
  }

  /** The kinds written with a parameter list and how many `param` blocks they get. */
  function ParamCount(md: Member): nat
  {
    if md.memberType in {Function, Signal, Friend, DCOP, Slot} then |md.declArgumentList|
    else if md.memberType == Define && md.argsString.Some? then |md.argumentList|
    else 0
  }

  /** A member record states its kind, virtualness and protection with the member
      tags: `normal` for a plain member and `package` for package scope. */
  lemma MemberHead(md: Member, defName: string, prefix: string)
    ensures Values(MemberFields(md, defName, prefix), MemKey(prefix, "kind")) == [RawQuoted(KindTag(md.memberType))]
    ensures Values(MemberFields(md, defName, prefix), MemKey(prefix, "virt")) == [Bare(VirtTag(md.virtualness))]
    ensures Values(MemberFields(md, defName, prefix), MemKey(prefix, "prot")) == [Bare(ProtTag(md.protection))]
  {
    MemberHeadOnly(md, defName, prefix, "kind");
    MemberHeadOnly(md, defName, prefix, "virt");
    MemberHeadOnly(md, defName, prefix, "prot");
    HeadValues(md, prefix);
  }

  lemma HeadValues(md: Member, prefix: string)
    ensures Values(HeadFields(md, prefix), MemKey(prefix, "kind")) == [RawQuoted(KindTag(md.memberType))]
    ensures Values(HeadFields(md, prefix), MemKey(prefix, "virt")) == [Bare(VirtTag(md.virtualness))]
    ensures Values(HeadFields(md, prefix), MemKey(prefix, "prot")) == [Bare(ProtTag(md.protection))]
  {
    var h := HeadFields(md, prefix);
    assert forall i, j :: 0 <= i < |h| && 0 <= j < |h| && i != j ==> h[i].key != h[j].key;
    ValuesDistinct(h, 0);
    ValuesDistinct(h, 2);
    ValuesDistinct(h, 3);
  }

  /** The head tags occur in the head of a member record and nowhere else. */
  lemma MemberHeadOnly(md: Member, defName: string, prefix: string, tag: string)
    requires tag == "kind" || tag == "virt" || tag == "prot"
    ensures Values(MemberFields(md, defName, prefix), MemKey(prefix, tag)) == Values(HeadFields(md, prefix), MemKey(prefix, tag))
  {
    var k := MemKey(prefix, tag);
    MemberScalarOnly(md, defName, prefix, tag);
    NameFieldsOff(md, prefix, k);
    DescFieldsOff(md, prefix, k);
  }

  /** The tags of the fields a member record writes exactly once. */
  const ScalarTags: set<string> := {"kind", "id", "virt", "prot", "name", "desc-file", "desc-line", "briefdesc", "documentation"}

  lemma ScalarTagIsNoListTag(tag: string)
    requires tag in ScalarTags
    ensures tag != "type" && tag != "param" && tag != "initializer" && tag != "enum"
    ensures tag != "referenceto" && tag != "referencedby"
  {
    assert "type"[0] != "kind"[0] && "type"[0] != "virt"[0] && "type"[0] != "prot"[0] && "type"[0] != "name"[0];
    assert "enum"[0] != "kind"[0] && "enum"[0] != "virt"[0] && "enum"[0] != "prot"[0] && "enum"[0] != "name"[0];
  }

  /** A query for a key of the scalar parts of a member record (head, name and
      description) sees only those parts. */
  lemma MemberScalarOnly(md: Member, defName: string, prefix: string, tag: string)
    requires tag in ScalarTags
    ensures var k := MemKey(prefix, tag);
      Values(MemberFields(md, defName, prefix), k)
      == Values(HeadFields(md, prefix), k) + Values(NameFields(md, prefix), k) + Values(DescFields(md, prefix), k)
  {
    var k := MemKey(prefix, tag);
    ListPartsOff(md, defName, prefix, tag);
    MemberValues(md, defName, prefix, k);
  }

  /** A scalar key is not found among the optional and list-valued parts. */
  lemma ListPartsOff(md: Member, defName: string, prefix: string, tag: string)
    requires tag in ScalarTags
    ensures var k := MemKey(prefix, tag);
      && Values(TypeFields(md, prefix), k) == [] && Values(ParamFields(md, prefix), k) == []
      && Values(InitializerFields(md, prefix), k) == [] && Values(EnumRecords(md, prefix), k) == []
      && Values(ReferenceRecords(md.references, defName, prefix, "referenceto"), k) == []
      && Values(ReferenceRecords(md.referencedBy, defName, prefix, "referencedby"), k) == []
  {
    var k := MemKey(prefix, tag);
    ScalarTagIsNoListTag(tag);
    TypeFieldsOff(md, prefix, k);
    ParamFieldsOff(md, prefix, k);
    InitializerFieldsOff(md, prefix, k);
    EnumRecordsOff(md, prefix, k);
    ReferenceRecordsOff(md.references, defName, prefix, "referenceto", k);
    ReferenceRecordsOff(md.referencedBy, defName, prefix, "referencedby", k);
  }

  /** Each key of the scalar parts of a member record occurs there once. */
  lemma ScalarPartsValues(md: Member, prefix: string)
    ensures var parts := HeadFields(md, prefix) + NameFields(md, prefix) + DescFields(md, prefix);
      forall i :: 0 <= i < |parts| ==>
        Values(HeadFields(md, prefix), parts[i].key) + Values(NameFields(md, prefix), parts[i].key)
          + Values(DescFields(md, prefix), parts[i].key) == [parts[i].value]
  {
    var h := HeadFields(md, prefix);
    var n := NameFields(md, prefix);
    var d := DescFields(md, prefix);
    var parts := h + n + d;
    assert forall a, b :: 0 <= a < |parts| && 0 <= b < |parts| && a != b ==> parts[a].key != parts[b].key;
    forall i | 0 <= i < |parts|
      ensures Values(h, parts[i].key) + Values(n, parts[i].key) + Values(d, parts[i].key) == [parts[i].value]
    {
      ValuesAppend(h, n, parts[i].key);
      ValuesAppend(h + n, d, parts[i].key);
      ValuesDistinct(parts, i);
    }
  }

  /** A member record identifies the member by its file base joined to its anchor,
      and gives its name between quotes without escaping. */
  lemma MemberIdentity(md: Member, defName: string, prefix: string)
    ensures Values(MemberFields(md, defName, prefix), MemKey(prefix, "id"))
         == [RawQuoted(md.outputFileBase + "_1" + md.anchor)]
    ensures Values(MemberFields(md, defName, prefix), MemKey(prefix, "name")) == [RawQuoted(md.name)]
  {
    MemberScalarOnly(md, defName, prefix, "id");
    MemberScalarOnly(md, defName, prefix, "name");
    ScalarPartsValues(md, prefix);
    var parts := HeadFields(md, prefix) + NameFields(md, prefix) + DescFields(md, prefix);
    assert parts[1].key == MemKey(prefix, "id") && parts[4].key == MemKey(prefix, "name");
  }

  /** A member record's description: the defining file unescaped, the line as decimal
      text, and the brief and detailed documentation as literal text. */
  lemma MemberDescription(md: Member, defName: string, prefix: string)
    ensures Values(MemberFields(md, defName, prefix), MemKey(prefix, "desc-file")) == [RawQuoted(md.defFileName)]
    ensures Values(MemberFields(md, defName, prefix), MemKey(prefix, "desc-line")) == [RawQuoted(IntToString(md.defLine))]
    ensures Values(MemberFields(md, defName, prefix), MemKey(prefix, "briefdesc")) == [Literal(md.briefDescription)]
    ensures Values(MemberFields(md, defName, prefix), MemKey(prefix, "documentation")) == [Literal(md.documentation)]
  {
    MemberScalarOnly(md, defName, prefix, "desc-file");
    MemberScalarOnly(md, defName, prefix, "desc-line");
    MemberScalarOnly(md, defName, prefix, "briefdesc");
    MemberScalarOnly(md, defName, prefix, "documentation");
    ScalarPartsValues(md, prefix);
    var parts := HeadFields(md, prefix) + NameFields(md, prefix) + DescFields(md, prefix);
    assert parts[5].key == MemKey(prefix, "desc-file") && parts[6].key == MemKey(prefix, "desc-line");
    assert parts[7].key == MemKey(prefix, "briefdesc") && parts[8].key == MemKey(prefix, "documentation");
  }

  /** The `type` field is written for every kind but define and enumeration. */
  lemma MemberTypeField(md: Member, defName: string, prefix: string)
    ensures HasKey(MemberFields(md, defName, prefix), MemKey(prefix, "type"))
            <==> md.memberType !in {Define, Enumeration}
  {
    var k := MemKey(prefix, "type");
    HeadFieldsOff(md, prefix, k);
    NameFieldsOff(md, prefix, k);
    DescFieldsOff(md, prefix, k);
    ParamFieldsOff(md, prefix, k);
    InitializerFieldsOff(md, prefix, k);
    EnumRecordsOff(md, prefix, k);
    ReferenceRecordsOff(md.references, defName, prefix, "referenceto", k);
    ReferenceRecordsOff(md.referencedBy, defName, prefix, "referencedby", k);
    MemberValues(md, defName, prefix, k);
  }

  /** The `param` blocks of a member: one per declared argument for the callable
      kinds, whatever the length of the defining list, the i-th paired with the i-th
      defining argument; one per argument, holding only its type text as its name,
      for a define with an argument string; none otherwise. */
  lemma MemberParams(md: Member, defName: string, prefix: string)
    ensures var ps := Values(MemberFields(md, defName, prefix), MemKey(prefix, "param"));
      && |ps| == ParamCount(md)
      && (IsFunc(md.memberType) ==> forall i :: 0 <= i < |ps| ==>
            ps[i] == Block(ParamBody(md.declArgumentList[i],
                                     if i < |md.argumentList| then Some(md.argumentList[i]) else None, prefix)))
      && (md.memberType == Define ==> forall i :: 0 <= i < |ps| ==>
            ps[i] == Block([Field(Key(MemPrefix(prefix) + "def-", "name"), RawQuoted(md.argumentList[i].typeText))]))
  {
    MemberParamsOnly(md, defName, prefix);
    ParamFieldsValues(md, prefix);
  }

  lemma ParamFieldsValues(md: Member, prefix: string)
    ensures var ps := Values(ParamFields(md, prefix), MemKey(prefix, "param"));
      && |ps| == ParamCount(md)
      && (IsFunc(md.memberType) ==> forall i :: 0 <= i < |ps| ==>
            ps[i] == Block(ParamBody(md.declArgumentList[i],
                                     if i < |md.argumentList| then Some(md.argumentList[i]) else None, prefix)))
      && (md.memberType == Define ==> forall i :: 0 <= i < |ps| ==>
            ps[i] == Block([Field(Key(MemPrefix(prefix) + "def-", "name"), RawQuoted(md.argumentList[i].typeText))]))
  {
    ValuesAllKeyed(ParamFields(md, prefix), MemKey(prefix, "param"));
  }

  /** A query for `param` sees only the parameter part of a member record. */
  lemma MemberParamsOnly(md: Member, defName: string, prefix: string)
    ensures Values(MemberFields(md, defName, prefix), MemKey(prefix, "param"))
         == Values(ParamFields(md, prefix), MemKey(prefix, "param"))
  {
    var k := MemKey(prefix, "param");
    HeadFieldsOff(md, prefix, k);
    NameFieldsOff(md, prefix, k);
    DescFieldsOff(md, prefix, k);
    TypeFieldsOff(md, prefix, k);
    InitializerFieldsOff(md, prefix, k);
    EnumRecordsOff(md, prefix, k);
    ReferenceRecordsOff(md.references, defName, prefix, "referenceto", k);
    ReferenceRecordsOff(md.referencedBy, defName, prefix, "referencedby", k);
    MemberValues(md, defName, prefix, k);
  }

  /** The i-th parameter of a callable carries `defname` exactly when the defining
      list reaches position i and names it, differently from the declaration. */
  lemma CallableDefName(md: Member, defName: string, prefix: string, i: nat)
    requires IsFunc(md.memberType) && i < |md.declArgumentList|
    ensures var ps := Values(MemberFields(md, defName, prefix), MemKey(prefix, "param"));
      && i < |ps| && ps[i].Block?
      && (HasKey(ps[i].fields, ParamKey(prefix, "defname"))
          <==> (i < |md.argumentList| && md.argumentList[i].name != ""
                && md.argumentList[i].name != md.declArgumentList[i].name))
  {
    MemberParams(md, defName, prefix);
    ParamBodyShape(md.declArgumentList[i], if i < |md.argumentList| then Some(md.argumentList[i]) else None, prefix);
  }

  /** One `enum` sub-record per enumerator, in order, for an enumeration only. */
  lemma MemberEnums(md: Member, defName: string, prefix: string)
    ensures var es := Values(MemberFields(md, defName, prefix), MemKey(prefix, "enum"));
      && |es| == (if md.memberType == Enumeration then |md.enumFields| else 0)
      && forall i :: 0 <= i < |es| ==> es[i] == Inline(EnumBody(md.enumFields[i]))
  {
    MemberEnumsOnly(md, defName, prefix);
    ValuesAllKeyed(EnumRecords(md, prefix), MemKey(prefix, "enum"));
  }

  /** A query for `enum` sees only the enumerator part of a member record. */
  lemma MemberEnumsOnly(md: Member, defName: string, prefix: string)
    ensures Values(MemberFields(md, defName, prefix), MemKey(prefix, "enum"))
         == Values(EnumRecords(md, prefix), MemKey(prefix, "enum"))
  {
    var k := MemKey(prefix, "enum");
    HeadFieldsOff(md, prefix, k);
    NameFieldsOff(md, prefix, k);
    DescFieldsOff(md, prefix, k);
    TypeFieldsOff(md, prefix, k);
    ParamFieldsOff(md, prefix, k);
    InitializerFieldsOff(md, prefix, k);
    ReferenceRecordsOff(md.references, defName, prefix, "referenceto", k);
    ReferenceRecordsOff(md.referencedBy, defName, prefix, "referencedby", k);
    MemberValues(md, defName, prefix, k);
  }

  /** The records written for a reference list, read back under their own key. */
  lemma ReferenceValues(refs: seq<Reference>, defName: string, prefix: string, tag: string)
    ensures var rs := Values(ReferenceRecords(refs, defName, prefix, tag), MemKey(prefix, tag));
      var kept := ResolvableRefs(refs);
      && |rs| == |kept|
      && forall i :: 0 <= i < |kept| ==> rs[i] == Block(RefBody(kept[i], defName, prefix))
  {
    ValuesAllKeyed(ReferenceRecords(refs, defName, prefix, tag), MemKey(prefix, tag));
  }

  /** The `referenceto` records are exactly the resolvable references, in order. */
  lemma MemberReferencesTo(md: Member, defName: string, prefix: string)
    ensures var rs := Values(MemberFields(md, defName, prefix), MemKey(prefix, "referenceto"));
      var kept := ResolvableRefs(md.references);
      && |rs| == |kept|
      && forall i :: 0 <= i < |kept| ==> rs[i] == Block(RefBody(kept[i], defName, prefix))
  {
    MemberReferencesToOnly(md, defName, prefix);
    ReferenceValues(md.references, defName, prefix, "referenceto");
  }

  lemma MemberReferencesToOnly(md: Member, defName: string, prefix: string)
    ensures Values(MemberFields(md, defName, prefix), MemKey(prefix, "referenceto"))
         == Values(ReferenceRecords(md.references, defName, prefix, "referenceto"), MemKey(prefix, "referenceto"))
  {
    var k := MemKey(prefix, "referenceto");
    HeadFieldsOff(md, prefix, k);
    NameFieldsOff(md, prefix, k);
    DescFieldsOff(md, prefix, k);
    TypeFieldsOff(md, prefix, k);
    ParamFieldsOff(md, prefix, k);
    InitializerFieldsOff(md, prefix, k);
    EnumRecordsOff(md, prefix, k);
    ReferenceRecordsOff(md.referencedBy, defName, prefix, "referencedby", k);
    MemberValues(md, defName, prefix, k);
  }

  /** Likewise for the `referencedby` records. */
  lemma MemberReferencedBy(md: Member, defName: string, prefix: string)
    ensures var rs := Values(MemberFields(md, defName, prefix), MemKey(prefix, "referencedby"));
      var kept := ResolvableRefs(md.referencedBy);
      && |rs| == |kept|
      && forall i :: 0 <= i < |kept| ==> rs[i] == Block(RefBody(kept[i], defName, prefix))
  {
    MemberReferencedByOnly(md, defName, prefix);
    ReferenceValues(md.referencedBy, defName, prefix, "referencedby");
  }

  lemma MemberReferencedByOnly(md: Member, defName: string, prefix: string)
    ensures Values(MemberFields(md, defName, prefix), MemKey(prefix, "referencedby"))
         == Values(ReferenceRecords(md.referencedBy, defName, prefix, "referencedby"), MemKey(prefix, "referencedby"))
  {
    var k := MemKey(prefix, "referencedby");
    HeadFieldsOff(md, prefix, k);
    NameFieldsOff(md, prefix, k);
    DescFieldsOff(md, prefix, k);
    TypeFieldsOff(md, prefix, k);
    ParamFieldsOff(md, prefix, k);
    InitializerFieldsOff(md, prefix, k);
    EnumRecordsOff(md, prefix, k);
    ReferenceRecordsOff(md.references, defName, prefix, "referenceto", k);
    MemberValues(md, defName, prefix, k);
  }

}
