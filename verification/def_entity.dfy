/**
 * The records of the three kinds of entity: generateDEFForClass with its
 * generateDEFClassSection, generateDEFForNamespace and generateDEFForFile with the
 * shared generateDEFSection.
 */
module DefEntity {
  import opened Wrappers
  import opened DefText
  import opened DefModel
  import opened DefMember
  import opened Seqs

  // ---------------------------------------------------------------------------
  // Member lists and sections
  // ---------------------------------------------------------------------------

  /** A member writes a record unless it is an enum value. */
  predicate Recorded(md: Member)
  {
    md.memberType != EnumValue
  }

  /** The members of a list that write a record, in list order. */
  function Rendered(ms: seq<Member>): seq<Member>
  {
    Filter(ms, Recorded)
  }

  /** The member records of a list, in list order. */
  function MemberRecords(ms: seq<Member>, defName: string, prefix: string): (r: seq<Field>)
    ensures AllKeyed(r, MemberKey(prefix))
    ensures |r| == |Rendered(ms)|
  {
    if ms == [] then []
    else
      var rest := MemberRecords(ms[1..], defName, prefix);
      assert Rendered(ms) == (if Recorded(ms[0]) then [ms[0]] else []) + Rendered(ms[1..]);
      MemberRecord(ms[0], defName, prefix) + rest
  }

  /** The record bodies of a list of members, one per member. */
  function MemberBlocks(ms: seq<Member>, defName: string, prefix: string): (r: seq<Value>)
    ensures |r| == |ms|
  {
    if ms == [] then [] else [Block(MemberFields(ms[0], defName, prefix))] + MemberBlocks(ms[1..], defName, prefix)
  }

  lemma {:induction false} MemberBlocksAt(ms: seq<Member>, defName: string, prefix: string, i: nat)
    requires i < |ms|
    ensures MemberBlocks(ms, defName, prefix)[i] == Block(MemberFields(ms[i], defName, prefix))
  {
    if i > 0 {
      MemberBlocksAt(ms[1..], defName, prefix, i - 1);
    }
  }

  /** The bodies of a list's member records are the blocks of the members that write one. */
  lemma {:induction false} MemberRecordsBodies(ms: seq<Member>, defName: string, prefix: string)
    ensures Bodies(MemberRecords(ms, defName, prefix)) == MemberBlocks(Rendered(ms), defName, prefix)
  {
    if ms != [] {
      var head := MemberRecord(ms[0], defName, prefix);
      var rest := MemberRecords(ms[1..], defName, prefix);
      var rd' := Rendered(ms[1..]);
      MemberRecordsBodies(ms[1..], defName, prefix);
      BodiesAppend(head, rest);
      assert MemberRecords(ms, defName, prefix) == head + rest;
      if Recorded(ms[0]) {
        assert Rendered(ms) == [ms[0]] + rd';
        RecordedBodies(ms[0], rd', defName, prefix);
      } else {
        assert Rendered(ms) == rd';
        assert head == [];
      }
    }
  }

  /** A member that writes a record puts its block in front of the others. */
  lemma RecordedBodies(md: Member, rd': seq<Member>, defName: string, prefix: string)
    requires Recorded(md)
    ensures Bodies(MemberRecord(md, defName, prefix)) + MemberBlocks(rd', defName, prefix)
         == MemberBlocks([md] + rd', defName, prefix)
  {
    assert ([md] + rd')[0] == md;
    assert ([md] + rd')[1..] == rd';
  }

  /** The i-th record of a list holds the fields of the i-th member that writes one. */
  lemma MemberRecordsContents(ms: seq<Member>, defName: string, prefix: string)
    ensures var r := MemberRecords(ms, defName, prefix);
      forall i :: 0 <= i < |r| ==> r[i] == Field(MemberKey(prefix), Block(MemberFields(Rendered(ms)[i], defName, prefix)))
  {
    var r := MemberRecords(ms, defName, prefix);
    MemberRecordsBodies(ms, defName, prefix);
    forall i | 0 <= i < |r|
      ensures r[i] == Field(MemberKey(prefix), Block(MemberFields(Rendered(ms)[i], defName, prefix)))
    {
      MemberBlocksAt(Rendered(ms), defName, prefix, i);
      assert r[i].value == Bodies(r)[i];
    }
  }

  /** A list that is there and holds at least one member. */
  predicate Present(ml: Option<seq<Member>>)
  {
    ml.Some? && ml.value != []
  }

  /** One row of a section table: the list type asked for and the label it is
      written under. */
  type Entry = (ListType, string)

  /** The members of the first list of type `lt`, none when there is no such list. */
  function ListMembers(lists: seq<MemberList>, lt: ListType): seq<Member>
  {
    match FindList(lists, lt)
    case Some(ms) => ms
    case None => []
  }

  /** Selects the table rows whose list is present. */
  function PresentIn(lists: seq<MemberList>): Entry -> bool
  {
    (e: Entry) => Present(FindList(lists, e.0))
  }

  /** The rows of a table whose list is present, in table order. */
  function PresentEntries(order: seq<Entry>, lists: seq<MemberList>): seq<Entry>
  {
    Filter(order, PresentIn(lists))
  }

  /** The labels of the sections an ordered table of list types produces: those whose
      list is present, in table order. */
  function PresentLabels(order: seq<Entry>, lists: seq<MemberList>): (r: seq<string>)
    ensures |r| <= |order|
  {
    if order == [] then []
    else (if Present(FindList(lists, order[0].0)) then [order[0].1] else []) + PresentLabels(order[1..], lists)
  }

  /** The labels are those of the present rows, one for one. */
  lemma {:induction false} PresentLabelsEntries(order: seq<Entry>, lists: seq<MemberList>)
    ensures |PresentLabels(order, lists)| == |PresentEntries(order, lists)|
    ensures forall i :: 0 <= i < |PresentLabels(order, lists)| ==>
              PresentLabels(order, lists)[i] == PresentEntries(order, lists)[i].1
  {
    if order != [] {
      PresentLabelsEntries(order[1..], lists);
      assert PresentEntries(order, lists)
          == (if PresentIn(lists)(order[0]) then [order[0]] else []) + PresentEntries(order[1..], lists);
    }
  }

  const SectionKey := Key("cp-", "section")
  const SecKindKey := Key("sec-", "kind")

  /** The kind label of a class section: the text of its leading `sec-kind` field. */
  function SectionKind(v: Value): string
  {
    if v.Block? && v.fields != [] && v.fields[0].key == SecKindKey && v.fields[0].value.RawQuoted?
    then v.fields[0].value.text
    else ""
  }

  /** generateDEFClassSection: nothing for a missing or empty list, otherwise one
      `cp-section` labelled with the kind and holding the list's member records. */
  function ClassSection(ml: Option<seq<Member>>, defName: string, kind: string): (r: seq<Field>)
    ensures r == [] <==> !Present(ml)
    ensures AllKeyed(r, SectionKey) && |r| <= 1
    ensures r != [] ==> (SectionKind(r[0].value) == kind && r[0].value.Block? && r[0].value.fields != []
                         && r[0].value.fields[1..] == MemberRecords(ml.value, defName, "sec"))
  {
    if !Present(ml) then []
    else [Field(SectionKey, Block([Field(SecKindKey, RawQuoted(kind))] + MemberRecords(ml.value, defName, "sec")))]
  }

  /** The class sections for a table of list types, in table order. */
  function ClassSections(order: seq<Entry>, lists: seq<MemberList>, defName: string): (r: seq<Field>)
    ensures AllKeyed(r, SectionKey)
    ensures |r| <= |order|
  {
    if order == [] then []
    else ClassSection(FindList(lists, order[0].0), defName, order[0].1) + ClassSections(order[1..], lists, defName)
  }

  /** The kind labels of the values of a sequence of class sections. */
  function Kinds(vs: seq<Value>): (r: seq<string>)
    ensures |r| == |vs|
    ensures forall i :: 0 <= i < |vs| ==> r[i] == SectionKind(vs[i])
  {
    seq(|vs|, i requires 0 <= i < |vs| => SectionKind(vs[i]))
  }

  lemma KindsAppend(a: seq<Value>, b: seq<Value>)
    ensures Kinds(a + b) == Kinds(a) + Kinds(b)
  {
  }

  /** The sections for a table are labelled exactly by the table's present lists, in
      table order. */
  lemma {:induction false} ClassSectionsLabelled(order: seq<Entry>, lists: seq<MemberList>, defName: string)
    ensures Kinds(Values(ClassSections(order, lists, defName), SectionKey)) == PresentLabels(order, lists)
  {
    if order != [] {
      var head := ClassSection(FindList(lists, order[0].0), defName, order[0].1);
      var rest := ClassSections(order[1..], lists, defName);
      ClassSectionsLabelled(order[1..], lists, defName);
      ValuesAppend(head, rest, SectionKey);
      KindsAppend(Values(head, SectionKey), Values(rest, SectionKey));
      ClassSectionLabelled(FindList(lists, order[0].0), defName, order[0].1);
    }
  }

  /** One section is labelled by its kind, and there is none for an absent list. */
  lemma ClassSectionLabelled(ml: Option<seq<Member>>, defName: string, kind: string)
    ensures Kinds(Values(ClassSection(ml, defName, kind), SectionKey)) == if Present(ml) then [kind] else []
  {
    var head := ClassSection(ml, defName, kind);
    if head != [] {
      assert head == [head[0]];
      assert Values(head, SectionKey) == [head[0].value];
    }
  }

  /** The body of the section written for a present row of the class table: the
      row's label, then the records of the row's list. */
  function SectionBody(e: Entry, lists: seq<MemberList>, defName: string): Value
  {
    Block([Field(SecKindKey, RawQuoted(e.1))] + MemberRecords(ListMembers(lists, e.0), defName, "sec"))
  }

  /** The sections for a table line up one to one with the table's present rows: the
      j-th holds the j-th present row's label and the records of that row's list, so
      two rows sharing a label are still told apart by what they hold. */
  lemma {:induction false} ClassSectionsContents(order: seq<Entry>, lists: seq<MemberList>, defName: string)
    ensures var r := ClassSections(order, lists, defName);
      var es := PresentEntries(order, lists);
      && |r| == |es|
      && forall j :: 0 <= j < |r| ==> r[j] == Field(SectionKey, SectionBody(es[j], lists, defName))
  {
    if order != [] {
      var r := ClassSections(order, lists, defName);
      var es := PresentEntries(order, lists);
      var head := ClassSection(FindList(lists, order[0].0), defName, order[0].1);
      var rest := ClassSections(order[1..], lists, defName);
      var es' := PresentEntries(order[1..], lists);
      ClassSectionsContents(order[1..], lists, defName);
      ClassSectionHead(order[0], lists, defName);
      assert r == head + rest;
      assert es == (if PresentIn(lists)(order[0]) then [order[0]] else []) + es';
      if PresentIn(lists)(order[0]) {
        forall j | 0 <= j < |r| ensures r[j] == Field(SectionKey, SectionBody(es[j], lists, defName)) {
          if j > 0 {
            assert r[j] == rest[j - 1];
            assert es[j] == es'[j - 1];
          }
        }
      } else {
        assert r == rest;
      }
    }
  }

  /** The section a single row of a class's table writes, in terms of the row. */
  lemma ClassSectionHead(e: Entry, lists: seq<MemberList>, defName: string)
    ensures ClassSection(FindList(lists, e.0), defName, e.1)
         == if PresentIn(lists)(e) then [Field(SectionKey, SectionBody(e, lists, defName))] else []
  {
  }

  /** The fixed order in which a class asks for its sections. The friends list is
      labelled like the signals. */
  const ClassSectionOrder: seq<Entry> := [
    (PubTypes, "public-type"), (Interfaces, "interfaces"), (Services, "services"),
    (PubMethods, "public-func"), (PubAttribs, "public-attrib"), (PubSlots, "public-slot"),
    (Signals, "signal"), (DcopMethods, "dcop-func"), (Properties, "property"),
    (PubStaticMethods, "public-static-func"), (PubStaticAttribs, "public-static-attrib"),
    (ProTypes, "protected-type"), (ProMethods, "protected-func"), (ProAttribs, "protected-attrib"),
    (ProSlots, "protected-slot"), (ProStaticMethods, "protected-static-func"),
    (ProStaticAttribs, "protected-static-attrib"),
    (PriTypes, "private-type"), (PriMethods, "private-func"), (PriAttribs, "private-attrib"),
    (PriSlots, "private-slot"), (PriStaticMethods, "private-static-func"),
    (PriStaticAttribs, "private-static-attrib"),
    (Friends, "signal"), (Related, "related")]

  /** The number of members in the lists without the detailed-documentation bit:
      it is zero exactly when every such list is empty. */
  function NumMembers(lists: seq<MemberList>): (r: nat)
    ensures r == 0 <==> forall i :: 0 <= i < |lists| && !IsDetailed(lists[i].listType) ==> lists[i].members == []
  {
    if lists == [] then 0
    else (if IsDetailed(lists[0].listType) then 0 else |lists[0].members|) + NumMembers(lists[1..])
  }

  /** With no member counted, every list without the detailed bit is empty. */
  lemma {:induction false} NumMembersZero(lists: seq<MemberList>, i: nat)
    requires NumMembers(lists) == 0 && i < |lists| && !IsDetailed(lists[i].listType)
    ensures lists[i].members == []
  {
    if i > 0 {
      NumMembersZero(lists[1..], i - 1);
    }
  }

  /** A named list type carries no detailed bit, so with nothing counted none of the
      sections of a table of named list types is written. */
  lemma {:induction false} NoSectionsWhenUncounted(order: seq<Entry>, lists: seq<MemberList>, defName: string)
    requires NumMembers(lists) == 0
    requires forall j :: 0 <= j < |order| ==> !order[j].0.OtherList?
    ensures ClassSections(order, lists, defName) == []
  {
    if order != [] {
      var ml := FindList(lists, order[0].0);
      if ml.Some? {
        var i :| 0 <= i < |lists| && lists[i].listType == order[0].0 && lists[i].members == ml.value;
        NumMembersZero(lists, i);
      }
      NoSectionsWhenUncounted(order[1..], lists, defName);
    }
  }

  /** The sections of a class as written: only when some non-detailed member exists. */
  function GatedClassSections(cd: ClassDef): seq<Field>
  {
    if NumMembers(cd.memberLists) > 0 then ClassSections(ClassSectionOrder, cd.memberLists, cd.name) else []
  }

  /** The member-count gate changes nothing: without it the sections would be the same. */
  lemma GateRedundant(cd: ClassDef)
    ensures GatedClassSections(cd) == ClassSections(ClassSectionOrder, cd.memberLists, cd.name)
  {
    if NumMembers(cd.memberLists) == 0 {
      NoSectionsWhenUncounted(ClassSectionOrder, cd.memberLists, cd.name);
    }
  }

  /** generateDEFSection: nothing for a missing or empty list, otherwise a block keyed
      by the kind whose member records carry the kind as their prefix. */
  function DeclSection(ml: Option<seq<Member>>, defName: string, kind: string): (r: seq<Field>)
    ensures r == [] <==> !Present(ml)
    ensures |r| <= 1
    ensures r != [] ==> r[0] == Field(Key("", kind), Block(MemberRecords(ml.value, defName, kind)))
  {
    if !Present(ml) then [] else [Field(Key("", kind), Block(MemberRecords(ml.value, defName, kind)))]
  }

  function LabelKeys(labels: seq<string>): (r: seq<Key>)
    ensures |r| == |labels|
    ensures forall i :: 0 <= i < |r| ==> r[i] == Key("", labels[i])
  {
    seq(|labels|, i requires 0 <= i < |labels| => Key("", labels[i]))
  }

  /** The declaration sections for a table of list types: one block per present list,
      in table order. */
  function DeclSections(order: seq<Entry>, lists: seq<MemberList>, defName: string): (r: seq<Field>)
    ensures Keys(r) == LabelKeys(PresentLabels(order, lists))
  {
    if order == [] then []
    else
      var head := DeclSection(FindList(lists, order[0].0), defName, order[0].1);
      var rest := DeclSections(order[1..], lists, defName);
      KeysAppend(head, rest);
      head + rest
  }

  /** The section a declaration writes for a table row: the records of the row's
      list, keyed by the row's label. */
  function DeclBody(e: Entry, lists: seq<MemberList>, defName: string): Value
  {
    Block(MemberRecords(ListMembers(lists, e.0), defName, e.1))
  }

  /** The declaration sections for a table line up one to one with the table's
      present rows: the j-th is keyed by that row's label and holds the records of
      that row's list, keyed by the same label. */
  lemma {:induction false} DeclSectionsContents(order: seq<Entry>, lists: seq<MemberList>, defName: string)
    ensures var r := DeclSections(order, lists, defName);
      var es := PresentEntries(order, lists);
      && |r| == |es|
      && forall j :: 0 <= j < |r| ==> r[j] == Field(Key("", es[j].1), DeclBody(es[j], lists, defName))
  {
    if order != [] {
      var r := DeclSections(order, lists, defName);
      var es := PresentEntries(order, lists);
      var head := DeclSection(FindList(lists, order[0].0), defName, order[0].1);
      var rest := DeclSections(order[1..], lists, defName);
      var es' := PresentEntries(order[1..], lists);
      DeclSectionsContents(order[1..], lists, defName);
      DeclSectionHead(order[0], lists, defName);
      assert r == head + rest;
      assert es == (if PresentIn(lists)(order[0]) then [order[0]] else []) + es';
      if PresentIn(lists)(order[0]) {
        forall j | 0 <= j < |r| ensures r[j] == Field(Key("", es[j].1), DeclBody(es[j], lists, defName)) {
          if j > 0 {
            assert r[j] == rest[j - 1];
            assert es[j] == es'[j - 1];
          }
        }
      } else {
        assert r == rest;
      }
    }
  }

  /** The section a single row writes, in terms of the row. */
  lemma DeclSectionHead(e: Entry, lists: seq<MemberList>, defName: string)
    ensures DeclSection(FindList(lists, e.0), defName, e.1)
         == if PresentIn(lists)(e) then [Field(Key("", e.1), DeclBody(e, lists, defName))] else []
  {
  }

  /** When the labels of a table are distinct, the query for a row's label finds that
      row's list's records, or nothing when the list is absent or empty. */
  lemma {:induction false} DeclSectionQuery(order: seq<Entry>, lists: seq<MemberList>, defName: string, i: nat)
    requires i < |order|
    requires forall a, b :: 0 <= a < b < |order| ==> order[a].1 != order[b].1
    ensures Values(DeclSections(order, lists, defName), Key("", order[i].1))
         == if Present(FindList(lists, order[i].0)) then [DeclBody(order[i], lists, defName)] else []
  {
    var k := Key("", order[i].1);
    var head := DeclSection(FindList(lists, order[0].0), defName, order[0].1);
    var rest := DeclSections(order[1..], lists, defName);
    assert DeclSections(order, lists, defName) == head + rest;
    ValuesAppend(head, rest, k);
    DeclHeadValues(order[0], lists, defName, order[i].1);
    LabelsDistinctTail(order);
    if i == 0 {
      DeclSectionsWithout(order[1..], lists, defName, order[0].1);
    } else {
      assert order[0].1 != order[i].1;
      assert order[1..][i - 1] == order[i];
      DeclSectionQuery(order[1..], lists, defName, i - 1);
    }
  }

  /** The query of the section one row writes. */
  lemma DeclHeadValues(e: Entry, lists: seq<MemberList>, defName: string, tag: string)
    ensures Values(DeclSection(FindList(lists, e.0), defName, e.1), Key("", tag))
         == if Present(FindList(lists, e.0)) && e.1 == tag then [DeclBody(e, lists, defName)] else []
  {
    DeclSectionHead(e, lists, defName);
  }

  /** Distinct labels stay distinct in the tail, none of which repeats the first. */
  lemma LabelsDistinctTail(order: seq<Entry>)
    requires order != []
    requires forall a, b :: 0 <= a < b < |order| ==> order[a].1 != order[b].1
    ensures forall a, b :: 0 <= a < b < |order[1..]| ==> order[1..][a].1 != order[1..][b].1
    ensures forall m :: 0 <= m < |order[1..]| ==> order[1..][m].1 != order[0].1
  {
    forall a, b | 0 <= a < b < |order[1..]| ensures order[1..][a].1 != order[1..][b].1 {
      assert order[1..][a] == order[a + 1] && order[1..][b] == order[b + 1];
    }
    forall m | 0 <= m < |order[1..]| ensures order[1..][m].1 != order[0].1 {
      assert order[1..][m] == order[m + 1];
    }
  }

  /** A label no row carries finds nothing among the declaration sections. */
  lemma DeclSectionsWithout(order: seq<Entry>, lists: seq<MemberList>, defName: string, tag: string)
    requires forall m :: 0 <= m < |order| ==> order[m].1 != tag
    ensures Values(DeclSections(order, lists, defName), Key("", tag)) == []
  {
    var r := DeclSections(order, lists, defName);
    LabelsFrom(order, lists);
    forall j | 0 <= j < |r| ensures r[j].key != Key("", tag) {
      assert r[j].key == Keys(r)[j];
    }
    ValuesAbsent(r, Key("", tag));
  }

  /** Every label of a table's present rows is the label of one of its rows. */
  lemma LabelsFrom(order: seq<Entry>, lists: seq<MemberList>)
    ensures forall j :: 0 <= j < |PresentLabels(order, lists)| ==>
              exists m :: 0 <= m < |order| && order[m].1 == PresentLabels(order, lists)[j]
  {
    var ls := PresentLabels(order, lists);
    var es := PresentEntries(order, lists);
    PresentLabelsEntries(order, lists);
    forall j | 0 <= j < |ls|
      ensures exists m :: 0 <= m < |order| && order[m].1 == ls[j]
    {
      assert es[j] in order;
      var m :| 0 <= m < |order| && order[m] == es[j];
      assert order[m].1 == ls[j];
    }
  }

  /** The order in which a namespace or a file asks for its declaration sections. */
  const DeclSectionOrder: seq<Entry> := [
    (DecDefineMembers, "define"), (DecProtoMembers, "prototype"), (DecTypedefMembers, "typedef"),
    (DecSequenceMembers, "sequence"), (DecDictionaryMembers, "dictionary"), (DecEnumMembers, "enum"),
    (DecFuncMembers, "func"), (DecVarMembers, "var")]

  // ---------------------------------------------------------------------------
  // Classes
  // ---------------------------------------------------------------------------

  /** Protection of an inheritance relation; package scope cannot occur there and is
      written as protected, unlike in a member record. */
  function RelProtTag(p: Protection): (r: string)
    ensures r == ProtTag(p) <==> p != Package
    ensures p == Package ==> r == ProtTag(Protected)
  {
    match p
    case Public => "public"
    case Package | Protected => "protected"
    case Private => "private"
  }

  /** Virtualness of an inheritance relation; plain inheritance is `non-virtual`,
      where a member record says `normal`. */
  function RelVirtTag(v: Specifier): (r: string)
    ensures r == VirtTag(v) <==> v != Normal
  {
    match v
    case Normal => "non-virtual"
    case Virtual => "virtual"
    case Pure => "pure-virtual"
  }

  const RefKey := Key("cp-", "ref")

  function RelationBody(b: BaseClass, direction: string): Value
  {
    Block([ Field(Key("ref-", "type"), Bare(direction)),
            Field(Key("ref-", "id"), RawQuoted(b.classBase)),
            Field(Key("ref-", "prot"), Bare(RelProtTag(b.prot))),
            Field(Key("ref-", "virt"), Bare(RelVirtTag(b.virt))) ])
  }

  /** One `cp-ref` record per relation, in the order the relations are listed. */
  function RelationRecords(bs: seq<BaseClass>, direction: string): (r: seq<Field>)
    ensures AllKeyed(r, RefKey)
    ensures |r| == |bs|
  {
    seq(|bs|, i requires 0 <= i < |bs| => Field(RefKey, RelationBody(bs[i], direction)))
  }

  /** What a reader finds in one `cp-ref` block: the direction, the related class's
      output-file base and the relation's protection and virtualness tags, each under
      its own key. */
  predicate DescribesRelation(v: Value, b: BaseClass, direction: string)
  {
    && v.Block?
    && Values(v.fields, Key("ref-", "type")) == [Bare(direction)]
    && Values(v.fields, Key("ref-", "id")) == [RawQuoted(b.classBase)]
    && Values(v.fields, Key("ref-", "prot")) == [Bare(RelProtTag(b.prot))]
    && Values(v.fields, Key("ref-", "virt")) == [Bare(RelVirtTag(b.virt))]
  }

  lemma RelationBodyDescribes(b: BaseClass, direction: string)
    ensures DescribesRelation(RelationBody(b, direction), b, direction)
  {
    assert "type"[0] != "id"[0] && "type"[0] != "prot"[0] && "type"[0] != "virt"[0];
    assert "id"[0] != "prot"[0] && "id"[0] != "virt"[0] && "prot"[0] != "virt"[0];
    ValuesOfFour(Field(Key("ref-", "type"), Bare(direction)),
                 Field(Key("ref-", "id"), RawQuoted(b.classBase)),
                 Field(Key("ref-", "prot"), Bare(RelProtTag(b.prot))),
                 Field(Key("ref-", "virt"), Bare(RelVirtTag(b.virt))));
  }

  /** The `cp-ref` records of a relation list read back as that list, in order. */
  lemma RelationRecordsRead(bs: seq<BaseClass>, direction: string)
    ensures var vs := Values(RelationRecords(bs, direction), RefKey);
      && |vs| == |bs|
      && forall i :: 0 <= i < |bs| ==> DescribesRelation(vs[i], bs[i], direction)
  {
    ValuesAllKeyed(RelationRecords(bs, direction), RefKey);
    forall i | 0 <= i < |bs|
      ensures DescribesRelation(Values(RelationRecords(bs, direction), RefKey)[i], bs[i], direction)
    {
      RelationBodyDescribes(bs[i], direction);
    }
  }

  /** A class is skipped when it is an external reference, an anonymous compound or a
      generated template instance. */
  predicate ClassSkipped(cd: ClassDef)
  {
    cd.isReference || '@' in cd.name || cd.hasTemplateMaster
  }

  function ClassHead(cd: ClassDef): seq<Field>
  {
    [ Field(Key("cp-", "id"), RawQuoted(cd.outputFileBase)),
      Field(Key("cp-", "name"), RawQuoted(cd.name)) ]
  }

  function ClassRelations(cd: ClassDef): seq<Field>
  {
    RelationRecords(cd.baseClasses, "base") + RelationRecords(cd.subClasses, "derived")
  }

  function ClassDesc(cd: ClassDef): seq<Field>
  {
    [ Field(Key("cp-", "filename"), RawQuoted(cd.defFileName)),
      Field(Key("cp-", "fileline"), RawQuoted(IntToString(cd.defLine))),
      Field(Key("cp-", "briefdesc"), Literal(cd.briefDescription)),
      Field(Key("cp-", "documentation"), Literal(cd.documentation)) ]
  }

  function GraphField(tag: string, g: DotGraph): seq<Field>
  {
    OptField(!g.isTrivial, Field(Key("cp-", tag), Literal(g.defText)))
  }

  function ClassGraphs(cd: ClassDef): seq<Field>
  {
    GraphField("inheritancegraph", cd.inheritanceGraph) + GraphField("collaborationgraph", cd.collaborationGraph)
  }

  function ClassFields(cd: ClassDef): seq<Field>
  {
    ClassHead(cd) + ClassRelations(cd) + GatedClassSections(cd) + ClassDesc(cd) + ClassGraphs(cd)
  }

  /** generateDEFForClass: nothing for a skipped class, otherwise one record keyed by
      the compound type and opening with the class's file base. */
  function ClassRecord(cd: ClassDef): (r: seq<Field>)
    ensures r == [] <==> ClassSkipped(cd)
    ensures |r| <= 1
    ensures r != [] ==> (r[0].key == Key("", cd.compoundTypeString) && r[0].value.Block?
                         && r[0].value.fields != [] && r[0].value.fields[0] == Field(Key("cp-", "id"), RawQuoted(cd.outputFileBase)))
  {
    if ClassSkipped(cd) then [] else [Field(Key("", cd.compoundTypeString), Block(ClassFields(cd)))]
  }

  function RefKeys(n: nat): (r: seq<Key>)
    ensures |r| == n
    ensures forall i :: 0 <= i < n ==> r[i] == RefKey
  {
    seq(n, i => RefKey)
  }

  function SectionKeys(n: nat): (r: seq<Key>)
    ensures |r| == n
    ensures forall i :: 0 <= i < n ==> r[i] == SectionKey
  {
    seq(n, i => SectionKey)
  }

  function GraphKeys(tag: string, g: DotGraph): seq<Key>
  {
    if g.isTrivial then [] else [Key("cp-", tag)]
  }

  lemma AllKeyedKeys(fs: seq<Field>, k: Key)
    requires AllKeyed(fs, k)
    ensures Keys(fs) == seq(|fs|, i => k)
  {
  }

  /** The layout of a class record: its identity, one `cp-ref` per base and per
      subclass, one `cp-section` per present list of the section table, the
      description fields, and a field for each graph that is not trivial. */
  lemma ClassLayout(cd: ClassDef)
    ensures Keys(ClassFields(cd))
         == [Key("cp-", "id"), Key("cp-", "name")]
          + RefKeys(|cd.baseClasses| + |cd.subClasses|)
          + SectionKeys(|PresentLabels(ClassSectionOrder, cd.memberLists)|)
          + [Key("cp-", "filename"), Key("cp-", "fileline"), Key("cp-", "briefdesc"), Key("cp-", "documentation")]
          + GraphKeys("inheritancegraph", cd.inheritanceGraph)
          + GraphKeys("collaborationgraph", cd.collaborationGraph)
  {
    var head := ClassHead(cd);
    var rels := ClassRelations(cd);
    var secs := GatedClassSections(cd);
    var desc := ClassDesc(cd);
    var graphs := ClassGraphs(cd);
    ClassHeadKeys(cd);
    ClassDescKeys(cd);
    RelationKeys(cd);
    SectionPartKeys(cd);
    GraphPartKeys(cd);
    KeysJoin(head, rels, secs, desc, graphs);
    assert ClassFields(cd) == head + rels + secs + desc + graphs;
  }

  lemma ClassHeadKeys(cd: ClassDef)
    ensures Keys(ClassHead(cd)) == [Key("cp-", "id"), Key("cp-", "name")]
  {
  }

  lemma ClassDescKeys(cd: ClassDef)
    ensures Keys(ClassDesc(cd)) == [Key("cp-", "filename"), Key("cp-", "fileline"), Key("cp-", "briefdesc"), Key("cp-", "documentation")]
  {
  }

  lemma RelationKeys(cd: ClassDef)
    ensures Keys(ClassRelations(cd)) == RefKeys(|cd.baseClasses| + |cd.subClasses|)
  {
    AllKeyedKeys(ClassRelations(cd), RefKey);
  }

  lemma SectionPartKeys(cd: ClassDef)
    ensures Keys(GatedClassSections(cd)) == SectionKeys(|PresentLabels(ClassSectionOrder, cd.memberLists)|)
  {
    var secs := GatedClassSections(cd);
    GateRedundant(cd);
    SectionsAllKeyed(cd);
    AllKeyedKeys(secs, SectionKey);
    ClassSectionsLabelled(ClassSectionOrder, cd.memberLists, cd.name);
    ValuesAllKeyed(secs, SectionKey);
  }

  lemma GraphPartKeys(cd: ClassDef)
    ensures Keys(ClassGraphs(cd))
         == GraphKeys("inheritancegraph", cd.inheritanceGraph) + GraphKeys("collaborationgraph", cd.collaborationGraph)
  {
    KeysAppend(GraphField("inheritancegraph", cd.inheritanceGraph), GraphField("collaborationgraph", cd.collaborationGraph));
  }

  /** A query on a class record, split along its parts. */
  lemma ClassValues(cd: ClassDef, k: Key)
    ensures Values(ClassFields(cd), k)
         == Values(ClassHead(cd), k) + Values(ClassRelations(cd), k) + Values(GatedClassSections(cd), k)
          + Values(ClassDesc(cd), k) + Values(ClassGraphs(cd), k)
  {
    var p1 := ClassHead(cd);
    var p2 := ClassRelations(cd);
    var p3 := GatedClassSections(cd);
    var p4 := ClassDesc(cd);
    var p5 := ClassGraphs(cd);
    ValuesAppend(p1, p2, k);
    ValuesAppend(p1 + p2, p3, k);
    ValuesAppend(p1 + p2 + p3, p4, k);
    ValuesAppend(p1 + p2 + p3 + p4, p5, k);
  }

  lemma ClassHeadOff(cd: ClassDef, k: Key)
    requires k != Key("cp-", "id") && k != Key("cp-", "name")
    ensures Values(ClassHead(cd), k) == []
  {
    ValuesAbsent(ClassHead(cd), k);
  }

  lemma ClassDescOff(cd: ClassDef, k: Key)
    requires k.tag != "filename" && k.tag != "fileline" && k.tag != "briefdesc" && k.tag != "documentation"
    ensures Values(ClassDesc(cd), k) == []
  {
    ValuesAbsent(ClassDesc(cd), k);
  }

  lemma RelationsOff(cd: ClassDef, k: Key)
    requires k != RefKey
    ensures Values(ClassRelations(cd), k) == []
  {
    ValuesOtherKey(ClassRelations(cd), RefKey, k);
  }

  lemma SectionsOff(cd: ClassDef, k: Key)
    requires k != SectionKey
    ensures Values(GatedClassSections(cd), k) == []
  {
    SectionsAllKeyed(cd);
    ValuesOtherKey(GatedClassSections(cd), SectionKey, k);
  }

  lemma GraphsOff(cd: ClassDef, k: Key)
    requires k != Key("cp-", "inheritancegraph") && k != Key("cp-", "collaborationgraph")
    ensures Values(ClassGraphs(cd), k) == []
  {
    var g1 := GraphField("inheritancegraph", cd.inheritanceGraph);
    var g2 := GraphField("collaborationgraph", cd.collaborationGraph);
    ValuesAppend(g1, g2, k);
    ValuesOpt(!cd.inheritanceGraph.isTrivial, Field(Key("cp-", "inheritancegraph"), Literal(cd.inheritanceGraph.defText)), k);
    ValuesOpt(!cd.collaborationGraph.isTrivial, Field(Key("cp-", "collaborationgraph"), Literal(cd.collaborationGraph.defText)), k);
  }

  lemma SectionsAllKeyed(cd: ClassDef)
    ensures AllKeyed(GatedClassSections(cd), SectionKey)
  {
  }

  /** A query for `cp-ref` sees only the relation part of a class record. */
  lemma ClassRefsOnly(cd: ClassDef)
    ensures Values(ClassFields(cd), RefKey) == Values(ClassRelations(cd), RefKey)
  {
    ClassHeadOff(cd, RefKey);
    SectionsOff(cd, RefKey);
    ClassDescOff(cd, RefKey);
    GraphsOff(cd, RefKey);
    ClassValues(cd, RefKey);
  }

  /** The `cp-ref` records of a class: one per base relation, then one per derived
      relation, each in list order and each naming its class and its tags. */
  lemma ClassRefs(cd: ClassDef)
    ensures var vs := Values(ClassFields(cd), RefKey);
      var nb := |cd.baseClasses|;
      && |vs| == nb + |cd.subClasses|
      && (forall i :: 0 <= i < nb ==> DescribesRelation(vs[i], cd.baseClasses[i], "base"))
      && (forall i :: 0 <= i < |cd.subClasses| ==> DescribesRelation(vs[nb + i], cd.subClasses[i], "derived"))
  {
    ClassRefsOnly(cd);
    RelationsRead(cd);
  }

  lemma RelationsRead(cd: ClassDef)
    ensures var vs := Values(ClassRelations(cd), RefKey);
      var nb := |cd.baseClasses|;
      && |vs| == nb + |cd.subClasses|
      && (forall i :: 0 <= i < nb ==> DescribesRelation(vs[i], cd.baseClasses[i], "base"))
      && (forall i :: 0 <= i < |cd.subClasses| ==> DescribesRelation(vs[nb + i], cd.subClasses[i], "derived"))
  {
    var bases := RelationRecords(cd.baseClasses, "base");
    var subs := RelationRecords(cd.subClasses, "derived");
    ValuesAppend(bases, subs, RefKey);
    RelationRecordsRead(cd.baseClasses, "base");
    RelationRecordsRead(cd.subClasses, "derived");
    LinedUpAppend(Values(bases, RefKey), cd.baseClasses, Values(subs, RefKey), cd.subClasses,
                  (v, b) => DescribesRelation(v, b, "base"), (v, b) => DescribesRelation(v, b, "derived"));
  }

  /** Two sequences each lined up with their sources stay lined up when appended. */
  lemma LinedUpAppend<A, B>(v1: seq<A>, b1: seq<B>, v2: seq<A>, b2: seq<B>, p1: (A, B) -> bool, p2: (A, B) -> bool)
    requires |v1| == |b1| && |v2| == |b2|
    requires forall i :: 0 <= i < |v1| ==> p1(v1[i], b1[i])
    requires forall i :: 0 <= i < |v2| ==> p2(v2[i], b2[i])
    ensures |v1 + v2| == |b1| + |b2|
    ensures forall i :: 0 <= i < |b1| ==> p1((v1 + v2)[i], b1[i])
    ensures forall i :: 0 <= i < |b2| ==> p2((v1 + v2)[|b1| + i], b2[i])
  {
    forall i | 0 <= i < |b2| ensures p2((v1 + v2)[|b1| + i], b2[i]) {
      assert (v1 + v2)[|b1| + i] == v2[i];
    }
  }

  /** A query for `cp-section` sees only the section part of a class record. */
  lemma ClassSectionsOnly(cd: ClassDef)
    ensures Values(ClassFields(cd), SectionKey) == Values(GatedClassSections(cd), SectionKey)
  {
    ClassHeadOff(cd, SectionKey);
    RelationsOff(cd, SectionKey);
    ClassDescOff(cd, SectionKey);
    GraphsOff(cd, SectionKey);
    ClassValues(cd, SectionKey);
  }

  /** The sections of a class are labelled exactly by the present lists of the section
      table, in table order. */
  lemma ClassSectionKinds(cd: ClassDef)
    ensures Kinds(Values(ClassFields(cd), SectionKey)) == PresentLabels(ClassSectionOrder, cd.memberLists)
  {
    ClassSectionsOnly(cd);
    GateRedundant(cd);
    ClassSectionsLabelled(ClassSectionOrder, cd.memberLists, cd.name);
  }

  /** The sections of a class, read back: one per present row of the section table,
      in table order, each holding the row's label and the records of the row's list
      (so the friends section holds the friends, though it shares the signals' label). */
  lemma ClassSectionContents(cd: ClassDef)
    ensures var vs := Values(ClassFields(cd), SectionKey);
      var es := PresentEntries(ClassSectionOrder, cd.memberLists);
      && |vs| == |es|
      && forall j :: 0 <= j < |vs| ==> vs[j] == SectionBody(es[j], cd.memberLists, cd.name)
  {
    ClassSectionsOnly(cd);
    GateRedundant(cd);
    ClassSectionsContents(ClassSectionOrder, cd.memberLists, cd.name);
    ValuesAllKeyed(ClassSections(ClassSectionOrder, cd.memberLists, cd.name), SectionKey);
  }

  /** A query for a key of the identity or the description of a class sees only those
      two parts of its record. */
  lemma ClassScalarOnly(cd: ClassDef, k: Key)
    requires k.prefix == "cp-"
    requires k.tag in {"id", "name", "filename", "fileline", "briefdesc", "documentation"}
    ensures Values(ClassFields(cd), k) == Values(ClassHead(cd), k) + Values(ClassDesc(cd), k)
  {
    assert k != RefKey && k != SectionKey;
    assert k != Key("cp-", "inheritancegraph") && k != Key("cp-", "collaborationgraph");
    RelationsOff(cd, k);
    SectionsOff(cd, k);
    GraphsOff(cd, k);
    ClassValues(cd, k);
  }

  /** A class record names the class by its file base and by its name, both written
      between quotes without escaping. */
  lemma ClassIdentity(cd: ClassDef)
    ensures Values(ClassFields(cd), Key("cp-", "id")) == [RawQuoted(cd.outputFileBase)]
    ensures Values(ClassFields(cd), Key("cp-", "name")) == [RawQuoted(cd.name)]
  {
    var h := ClassHead(cd);
    ClassScalarOnly(cd, Key("cp-", "id"));
    ClassScalarOnly(cd, Key("cp-", "name"));
    ClassDescOff(cd, Key("cp-", "id"));
    ClassDescOff(cd, Key("cp-", "name"));
    ValuesDistinct(h, 0);
    ValuesDistinct(h, 1);
  }

  /** A class record's description: the defining file unescaped, the line as decimal
      text, and the brief and detailed documentation as literal text. */
  lemma ClassDescription(cd: ClassDef)
    ensures Values(ClassFields(cd), Key("cp-", "filename")) == [RawQuoted(cd.defFileName)]
    ensures Values(ClassFields(cd), Key("cp-", "fileline")) == [RawQuoted(IntToString(cd.defLine))]
    ensures Values(ClassFields(cd), Key("cp-", "briefdesc")) == [Literal(cd.briefDescription)]
    ensures Values(ClassFields(cd), Key("cp-", "documentation")) == [Literal(cd.documentation)]
  {
    var d := ClassDesc(cd);
    assert forall i, j :: 0 <= i < |d| && 0 <= j < |d| && i != j ==> d[i].key != d[j].key;
    ClassScalarOnly(cd, Key("cp-", "filename"));
    ClassScalarOnly(cd, Key("cp-", "fileline"));
    ClassScalarOnly(cd, Key("cp-", "briefdesc"));
    ClassScalarOnly(cd, Key("cp-", "documentation"));
    ClassHeadOff(cd, Key("cp-", "filename"));
    ClassHeadOff(cd, Key("cp-", "fileline"));
    ClassHeadOff(cd, Key("cp-", "briefdesc"));
    ClassHeadOff(cd, Key("cp-", "documentation"));
    ValuesDistinct(d, 0);
    ValuesDistinct(d, 1);
    ValuesDistinct(d, 2);
    ValuesDistinct(d, 3);
  }

  /** A query for a graph key sees only the graph part of a class record. */
  lemma ClassGraphsOnly(cd: ClassDef, k: Key)
    requires k == Key("cp-", "inheritancegraph") || k == Key("cp-", "collaborationgraph")
    ensures Values(ClassFields(cd), k) == Values(ClassGraphs(cd), k)
  {
    ClassHeadOff(cd, k);
    RelationsOff(cd, k);
    SectionsOff(cd, k);
    ClassDescOff(cd, k);
    ClassValues(cd, k);
  }

  lemma GraphValues(cd: ClassDef)
    ensures Values(ClassGraphs(cd), Key("cp-", "inheritancegraph"))
         == if cd.inheritanceGraph.isTrivial then [] else [Literal(cd.inheritanceGraph.defText)]
    ensures Values(ClassGraphs(cd), Key("cp-", "collaborationgraph"))
         == if cd.collaborationGraph.isTrivial then [] else [Literal(cd.collaborationGraph.defText)]
  {
    var g1 := GraphField("inheritancegraph", cd.inheritanceGraph);
    var g2 := GraphField("collaborationgraph", cd.collaborationGraph);
    ValuesAppend(g1, g2, Key("cp-", "inheritancegraph"));
    ValuesAppend(g1, g2, Key("cp-", "collaborationgraph"));
  }

  /** A graph field is written exactly when the graph is not trivial, holding its
      text; the inheritance graph comes first. */
  lemma ClassGraphFields(cd: ClassDef)
    ensures Values(ClassFields(cd), Key("cp-", "inheritancegraph"))
         == if cd.inheritanceGraph.isTrivial then [] else [Literal(cd.inheritanceGraph.defText)]
    ensures Values(ClassFields(cd), Key("cp-", "collaborationgraph"))
         == if cd.collaborationGraph.isTrivial then [] else [Literal(cd.collaborationGraph.defText)]
  {
    ClassGraphsOnly(cd, Key("cp-", "inheritancegraph"));
    ClassGraphsOnly(cd, Key("cp-", "collaborationgraph"));
    GraphValues(cd);
  }

  // ---------------------------------------------------------------------------
  // Namespaces and files
  // ---------------------------------------------------------------------------

  function NamespaceHead(nd: NamespaceDef): seq<Field>
  {
    [ Field(Key("ns-", "id"), RawQuoted(nd.outputFileBase)),
      Field(Key("ns-", "name"), Quoted(nd.name)) ]
  }

  function NamespaceTail(nd: NamespaceDef): seq<Field>
  {
    [ Field(Key("ns-", "filename"), RawQuoted(nd.defFileName)),
      Field(Key("ns-", "fileline"), RawQuoted(IntToString(nd.defLine))),
      Field(Key("ns-", "briefdesc"), Literal(nd.briefDescription)),
      Field(Key("ns-", "documentation"), Literal(nd.documentation)) ]
  }

  lemma NamespaceOpening(nd: NamespaceDef)
    ensures |NamespaceFields(nd)| >= 2
    ensures NamespaceFields(nd)[0] == Field(Key("ns-", "id"), RawQuoted(nd.outputFileBase))
    ensures NamespaceFields(nd)[1] == Field(Key("ns-", "name"), Quoted(nd.name))
  {
    var h := NamespaceHead(nd);
    var hs := h + DeclSections(DeclSectionOrder, nd.memberLists, nd.name);
    assert hs[0] == h[0] && hs[1] == h[1];
  }

  function NamespaceFields(nd: NamespaceDef): seq<Field>
  {
    NamespaceHead(nd) + DeclSections(DeclSectionOrder, nd.memberLists, nd.name) + NamespaceTail(nd)
  }

  /** generateDEFForNamespace: nothing for an external reference, otherwise one
      `namespace` record opening with the file base and the escaped name. */
  function NamespaceRecord(nd: NamespaceDef): (r: seq<Field>)
    ensures r == [] <==> nd.isReference
    ensures |r| <= 1
    ensures r != [] ==> (r[0].key == Key("", "namespace") && r[0].value.Block? && |r[0].value.fields| >= 2
                         && r[0].value.fields[0] == Field(Key("ns-", "id"), RawQuoted(nd.outputFileBase))
                         && r[0].value.fields[1] == Field(Key("ns-", "name"), Quoted(nd.name)))
  {
    if nd.isReference then []
    else
      var fs := NamespaceFields(nd);
      NamespaceOpening(nd);
      [Field(Key("", "namespace"), Block(fs))]
  }

  /** The layout of a namespace record: identity, one block per present declaration
      list in the fixed order, then the description fields. */
  lemma NamespaceLayout(nd: NamespaceDef)
    ensures Keys(NamespaceFields(nd))
         == [Key("ns-", "id"), Key("ns-", "name")]
          + LabelKeys(PresentLabels(DeclSectionOrder, nd.memberLists))
          + [Key("ns-", "filename"), Key("ns-", "fileline"), Key("ns-", "briefdesc"), Key("ns-", "documentation")]
  {
    var secs := DeclSections(DeclSectionOrder, nd.memberLists, nd.name);
    NamespaceEndsKeys(nd);
    KeysAppend(NamespaceHead(nd), secs);
    KeysAppend(NamespaceHead(nd) + secs, NamespaceTail(nd));
  }

  lemma NamespaceEndsKeys(nd: NamespaceDef)
    ensures Keys(NamespaceHead(nd)) == [Key("ns-", "id"), Key("ns-", "name")]
    ensures Keys(NamespaceTail(nd)) == [Key("ns-", "filename"), Key("ns-", "fileline"), Key("ns-", "briefdesc"), Key("ns-", "documentation")]
  {
  }

  /** The labels of the declaration table are distinct. */
  lemma DeclLabelsDistinct()
    ensures forall a, b :: 0 <= a < b < |DeclSectionOrder| ==> DeclSectionOrder[a].1 != DeclSectionOrder[b].1
  {
  }

  /** Every key of the declaration sections has no prefix. */
  lemma DeclSectionsUnprefixed(order: seq<Entry>, lists: seq<MemberList>, defName: string)
    ensures forall j :: 0 <= j < |DeclSections(order, lists, defName)| ==> DeclSections(order, lists, defName)[j].key.prefix == ""
  {
    var r := DeclSections(order, lists, defName);
    forall j | 0 <= j < |r| ensures r[j].key.prefix == "" {
      assert r[j].key == Keys(r)[j];
    }
  }

  /** Around unprefixed sections, a query for a prefixed key sees only what lies
      before and after them. */
  lemma PrefixedOnly(head: seq<Field>, secs: seq<Field>, tail: seq<Field>, k: Key)
    requires k.prefix != ""
    requires forall j :: 0 <= j < |secs| ==> secs[j].key.prefix == ""
    ensures Values(head + secs + tail, k) == Values(head, k) + Values(tail, k)
  {
    ValuesAbsent(secs, k);
    ValuesAppend(head, secs, k);
    ValuesAppend(head + secs, tail, k);
  }

  /** Between prefixed fields, a query for an unprefixed key sees only the middle. */
  lemma UnprefixedOnly(head: seq<Field>, secs: seq<Field>, tail: seq<Field>, k: Key)
    requires k.prefix == ""
    requires forall j :: 0 <= j < |head| ==> head[j].key.prefix != ""
    requires forall j :: 0 <= j < |tail| ==> tail[j].key.prefix != ""
    ensures Values(head + secs + tail, k) == Values(secs, k)
  {
    ValuesAbsent(head, k);
    ValuesAbsent(tail, k);
    ValuesAppend(head, secs, k);
    ValuesAppend(head + secs, tail, k);
  }

  /** A query for a prefixed key of a namespace record sees only its head and tail. */
  lemma NamespaceScalarOnly(nd: NamespaceDef, k: Key)
    requires k.prefix == "ns-"
    ensures Values(NamespaceFields(nd), k) == Values(NamespaceHead(nd), k) + Values(NamespaceTail(nd), k)
  {
    var secs := DeclSections(DeclSectionOrder, nd.memberLists, nd.name);
    DeclSectionsUnprefixed(DeclSectionOrder, nd.memberLists, nd.name);
    PrefixedOnly(NamespaceHead(nd), secs, NamespaceTail(nd), k);
  }

  /** A namespace record names the namespace by its file base, unescaped, and by its name,
      escaped. */
  lemma NamespaceIdentity(nd: NamespaceDef)
    ensures Values(NamespaceFields(nd), Key("ns-", "id")) == [RawQuoted(nd.outputFileBase)]
    ensures Values(NamespaceFields(nd), Key("ns-", "name")) == [Quoted(nd.name)]
  {
    NamespaceScalarOnly(nd, Key("ns-", "id"));
    NamespaceScalarOnly(nd, Key("ns-", "name"));
    NamespaceEndsValues(nd);
  }

  /** A namespace record's description: the defining file unescaped, the line as decimal
      text, and the brief and detailed documentation as literal text. */
  lemma NamespaceDescription(nd: NamespaceDef)
    ensures Values(NamespaceFields(nd), Key("ns-", "filename")) == [RawQuoted(nd.defFileName)]
    ensures Values(NamespaceFields(nd), Key("ns-", "fileline")) == [RawQuoted(IntToString(nd.defLine))]
    ensures Values(NamespaceFields(nd), Key("ns-", "briefdesc")) == [Literal(nd.briefDescription)]
    ensures Values(NamespaceFields(nd), Key("ns-", "documentation")) == [Literal(nd.documentation)]
  {
    NamespaceScalarOnly(nd, Key("ns-", "filename"));
    NamespaceScalarOnly(nd, Key("ns-", "fileline"));
    NamespaceScalarOnly(nd, Key("ns-", "briefdesc"));
    NamespaceScalarOnly(nd, Key("ns-", "documentation"));
    NamespaceEndsValues(nd);
  }

  /** Each key of the head and tail of a namespace record occurs there once. */
  lemma NamespaceEndsValues(nd: NamespaceDef)
    ensures Values(NamespaceHead(nd), Key("ns-", "id")) + Values(NamespaceTail(nd), Key("ns-", "id")) == [RawQuoted(nd.outputFileBase)]
    ensures Values(NamespaceHead(nd), Key("ns-", "name")) + Values(NamespaceTail(nd), Key("ns-", "name")) == [Quoted(nd.name)]
    ensures Values(NamespaceHead(nd), Key("ns-", "filename")) + Values(NamespaceTail(nd), Key("ns-", "filename")) == [RawQuoted(nd.defFileName)]
    ensures Values(NamespaceHead(nd), Key("ns-", "fileline")) + Values(NamespaceTail(nd), Key("ns-", "fileline")) == [RawQuoted(IntToString(nd.defLine))]
    ensures Values(NamespaceHead(nd), Key("ns-", "briefdesc")) + Values(NamespaceTail(nd), Key("ns-", "briefdesc")) == [Literal(nd.briefDescription)]
    ensures Values(NamespaceHead(nd), Key("ns-", "documentation")) + Values(NamespaceTail(nd), Key("ns-", "documentation")) == [Literal(nd.documentation)]
  {
    var h := NamespaceHead(nd);
    var t := NamespaceTail(nd);
    var ends := h + t;
    assert forall a, b :: 0 <= a < |ends| && 0 <= b < |ends| && a != b ==> ends[a].key != ends[b].key;
    forall i | 0 <= i < |ends|
      ensures Values(h, ends[i].key) + Values(t, ends[i].key) == [ends[i].value]
    {
      ValuesAppend(h, t, ends[i].key);
      ValuesDistinct(ends, i);
    }
    assert ends[0].key == Key("ns-", "id") && ends[1].key == Key("ns-", "name");
    assert ends[2].key == Key("ns-", "filename") && ends[3].key == Key("ns-", "fileline");
    assert ends[4].key == Key("ns-", "briefdesc") && ends[5].key == Key("ns-", "documentation");
  }

  /** A namespace's declaration section of a given kind holds exactly the records of
      its list of that kind, and is missing when that list is absent or empty. */
  lemma NamespaceSection(nd: NamespaceDef, i: nat)
    requires i < |DeclSectionOrder|
    ensures var (lt, kind) := DeclSectionOrder[i];
      Values(NamespaceFields(nd), Key("", kind))
      == if Present(FindList(nd.memberLists, lt))
         then [Block(MemberRecords(ListMembers(nd.memberLists, lt), nd.name, kind))]
         else []
  {
    DeclLabelsDistinct();
    DeclSectionQuery(DeclSectionOrder, nd.memberLists, nd.name, i);
    NamespaceSectionsOnly(nd, Key("", DeclSectionOrder[i].1));
  }

  /** A query for an unprefixed key of a namespace record sees only its sections. */
  lemma NamespaceSectionsOnly(nd: NamespaceDef, k: Key)
    requires k.prefix == ""
    ensures Values(NamespaceFields(nd), k) == Values(DeclSections(DeclSectionOrder, nd.memberLists, nd.name), k)
  {
    NamespaceEndsPrefixed(nd);
    UnprefixedOnly(NamespaceHead(nd), DeclSections(DeclSectionOrder, nd.memberLists, nd.name), NamespaceTail(nd), k);
  }

  lemma NamespaceEndsPrefixed(nd: NamespaceDef)
    ensures forall j :: 0 <= j < |NamespaceHead(nd)| ==> NamespaceHead(nd)[j].key.prefix == "ns-"
    ensures forall j :: 0 <= j < |NamespaceTail(nd)| ==> NamespaceTail(nd)[j].key.prefix == "ns-"
  {
  }

  function FileHead(fd: FileDef): seq<Field>
  {
    [ Field(Key("file-", "id"), RawQuoted(fd.outputFileBase)),
      Field(Key("file-", "name"), Quoted(fd.name)) ]
  }

  function FileTail(fd: FileDef): seq<Field>
  {
    [ Field(Key("file-", "full-name"), RawQuoted(fd.defFileName)),
      Field(Key("file-", "first-line"), RawQuoted(IntToString(fd.defLine))),
      Field(Key("file-", "briefdesc"), Literal(fd.briefDescription)),
      Field(Key("file-", "documentation"), Literal(fd.documentation)) ]
  }

  lemma FileOpening(fd: FileDef)
    ensures |FileFields(fd)| >= 2
    ensures FileFields(fd)[0] == Field(Key("file-", "id"), RawQuoted(fd.outputFileBase))
    ensures FileFields(fd)[1] == Field(Key("file-", "name"), Quoted(fd.name))
  {
    var h := FileHead(fd);
    var hs := h + DeclSections(DeclSectionOrder, fd.memberLists, fd.name);
    assert hs[0] == h[0] && hs[1] == h[1];
  }

  function FileFields(fd: FileDef): seq<Field>
  {
    FileHead(fd) + DeclSections(DeclSectionOrder, fd.memberLists, fd.name) + FileTail(fd)
  }

  /** generateDEFForFile: nothing for an external reference, otherwise one `file`
      record opening with the file base and the escaped name. */
  function FileRecord(fd: FileDef): (r: seq<Field>)
    ensures r == [] <==> fd.isReference
    ensures |r| <= 1
    ensures r != [] ==> (r[0].key == Key("", "file") && r[0].value.Block? && |r[0].value.fields| >= 2
                         && r[0].value.fields[0] == Field(Key("file-", "id"), RawQuoted(fd.outputFileBase))
                         && r[0].value.fields[1] == Field(Key("file-", "name"), Quoted(fd.name)))
  {
    if fd.isReference then []
    else
      var fs := FileFields(fd);
      FileOpening(fd);
      [Field(Key("", "file"), Block(fs))]
  }

  /** The layout of a file record, as for a namespace with the file's own tags. */
  lemma FileLayout(fd: FileDef)
    ensures Keys(FileFields(fd))
         == [Key("file-", "id"), Key("file-", "name")]
          + LabelKeys(PresentLabels(DeclSectionOrder, fd.memberLists))
          + [Key("file-", "full-name"), Key("file-", "first-line"), Key("file-", "briefdesc"), Key("file-", "documentation")]
  {
    var secs := DeclSections(DeclSectionOrder, fd.memberLists, fd.name);
    FileEndsKeys(fd);
    KeysAppend(FileHead(fd), secs);
    KeysAppend(FileHead(fd) + secs, FileTail(fd));
  }

  lemma FileEndsKeys(fd: FileDef)
    ensures Keys(FileHead(fd)) == [Key("file-", "id"), Key("file-", "name")]
    ensures Keys(FileTail(fd)) == [Key("file-", "full-name"), Key("file-", "first-line"), Key("file-", "briefdesc"), Key("file-", "documentation")]
  {
  }

  /** A query for a prefixed key of a file record sees only its head and tail. */
  lemma FileScalarOnly(fd: FileDef, k: Key)
    requires k.prefix == "file-"
    ensures Values(FileFields(fd), k) == Values(FileHead(fd), k) + Values(FileTail(fd), k)
  {
    var secs := DeclSections(DeclSectionOrder, fd.memberLists, fd.name);
    DeclSectionsUnprefixed(DeclSectionOrder, fd.memberLists, fd.name);
    PrefixedOnly(FileHead(fd), secs, FileTail(fd), k);
  }

  /** A file record names the file by its file base, unescaped, and by its name,
      escaped. */
  lemma FileIdentity(fd: FileDef)
    ensures Values(FileFields(fd), Key("file-", "id")) == [RawQuoted(fd.outputFileBase)]
    ensures Values(FileFields(fd), Key("file-", "name")) == [Quoted(fd.name)]
  {
    FileScalarOnly(fd, Key("file-", "id"));
    FileScalarOnly(fd, Key("file-", "name"));
    FileEndsValues(fd);
  }

  /** A file record's description: the defining file unescaped, the line as decimal
      text, and the brief and detailed documentation as literal text. */
  lemma FileDescription(fd: FileDef)
    ensures Values(FileFields(fd), Key("file-", "full-name")) == [RawQuoted(fd.defFileName)]
    ensures Values(FileFields(fd), Key("file-", "first-line")) == [RawQuoted(IntToString(fd.defLine))]
    ensures Values(FileFields(fd), Key("file-", "briefdesc")) == [Literal(fd.briefDescription)]
    ensures Values(FileFields(fd), Key("file-", "documentation")) == [Literal(fd.documentation)]
  {
    FileScalarOnly(fd, Key("file-", "full-name"));
    FileScalarOnly(fd, Key("file-", "first-line"));
    FileScalarOnly(fd, Key("file-", "briefdesc"));
    FileScalarOnly(fd, Key("file-", "documentation"));
    FileEndsValues(fd);
  }

  /** Each key of the head and tail of a file record occurs there once. */
  lemma FileEndsValues(fd: FileDef)
    ensures Values(FileHead(fd), Key("file-", "id")) + Values(FileTail(fd), Key("file-", "id")) == [RawQuoted(fd.outputFileBase)]
    ensures Values(FileHead(fd), Key("file-", "name")) + Values(FileTail(fd), Key("file-", "name")) == [Quoted(fd.name)]
    ensures Values(FileHead(fd), Key("file-", "full-name")) + Values(FileTail(fd), Key("file-", "full-name")) == [RawQuoted(fd.defFileName)]
    ensures Values(FileHead(fd), Key("file-", "first-line")) + Values(FileTail(fd), Key("file-", "first-line")) == [RawQuoted(IntToString(fd.defLine))]
    ensures Values(FileHead(fd), Key("file-", "briefdesc")) + Values(FileTail(fd), Key("file-", "briefdesc")) == [Literal(fd.briefDescription)]
    ensures Values(FileHead(fd), Key("file-", "documentation")) + Values(FileTail(fd), Key("file-", "documentation")) == [Literal(fd.documentation)]
  {
    var h := FileHead(fd);
    var t := FileTail(fd);
    var ends := h + t;
    assert forall a, b :: 0 <= a < |ends| && 0 <= b < |ends| && a != b ==> ends[a].key != ends[b].key;
    forall i | 0 <= i < |ends|
      ensures Values(h, ends[i].key) + Values(t, ends[i].key) == [ends[i].value]
    {
      ValuesAppend(h, t, ends[i].key);
      ValuesDistinct(ends, i);
    }
    assert ends[0].key == Key("file-", "id") && ends[1].key == Key("file-", "name");
    assert ends[2].key == Key("file-", "full-name") && ends[3].key == Key("file-", "first-line");
    assert ends[4].key == Key("file-", "briefdesc") && ends[5].key == Key("file-", "documentation");
  }

  /** A file's declaration section of a given kind holds exactly the records of its
      list of that kind, and is missing when that list is absent or empty. */
  lemma FileSection(fd: FileDef, i: nat)
    requires i < |DeclSectionOrder|
    ensures var (lt, kind) := DeclSectionOrder[i];
      Values(FileFields(fd), Key("", kind))
      == if Present(FindList(fd.memberLists, lt))
         then [Block(MemberRecords(ListMembers(fd.memberLists, lt), fd.name, kind))]
         else []
  {
    DeclLabelsDistinct();
    DeclSectionQuery(DeclSectionOrder, fd.memberLists, fd.name, i);
    FileSectionsOnly(fd, Key("", DeclSectionOrder[i].1));
  }

  /** A query for an unprefixed key of a file record sees only its sections. */
  lemma FileSectionsOnly(fd: FileDef, k: Key)
    requires k.prefix == ""
    ensures Values(FileFields(fd), k) == Values(DeclSections(DeclSectionOrder, fd.memberLists, fd.name), k)
  {
    FileEndsPrefixed(fd);
    UnprefixedOnly(FileHead(fd), DeclSections(DeclSectionOrder, fd.memberLists, fd.name), FileTail(fd), k);
  }

  lemma FileEndsPrefixed(fd: FileDef)
    ensures forall j :: 0 <= j < |FileHead(fd)| ==> FileHead(fd)[j].key.prefix == "file-"
    ensures forall j :: 0 <= j < |FileTail(fd)| ==> FileTail(fd)[j].key.prefix == "file-"
  {
  }

}
