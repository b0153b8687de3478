/**
 * The emission part of generateDEF: the document header, then the records of every
 * class, every file and every namespace in that order, or the `dummy_value` marker
 * when the model holds none of them.
 */
module DefDriver {
  import opened DefText
  import opened DefModel
  import opened DefEntity
  import opened Seqs

  /** The first line of every document. */
  const Header: string := "AutoGen Definitions dummy;\n"

  /** The record written instead of the entities when the model is empty. */
  const DummyField: Field := Field(Key("", "dummy_value"), Bare("true"))

  /** The sizes the driver adds up: classes, input file names, namespaces. */
  function Total(m: Model): (r: nat)
    ensures r == 0 <==> m.classes == [] && m.fileNames == [] && m.namespaces == []
  {
    |m.classes| + |m.fileNames| + |m.namespaces|
  }

  predicate ClassKept(cd: ClassDef)
  {
    !ClassSkipped(cd)
  }

  predicate FileKept(fd: FileDef)
  {
    !fd.isReference
  }

  predicate NamespaceKept(nd: NamespaceDef)
  {
    !nd.isReference
  }

  /** Every input file, file name by file name. */
  function AllFiles(m: Model): seq<FileDef>
  {
    Flatten(m.fileNames)
  }

  /** One record per class that is not skipped, in collection order. */
  function ClassRecords(cs: seq<ClassDef>): seq<Field>
  {
    FlatMap(cs, ClassRecord)
  }

  /** The records line up one to one with the classes that are kept. */
  lemma ClassRecordsKept(cs: seq<ClassDef>)
    ensures |ClassRecords(cs)| == |Filter(cs, ClassKept)|
    ensures forall i :: 0 <= i < |ClassRecords(cs)| ==> [ClassRecords(cs)[i]] == ClassRecord(Filter(cs, ClassKept)[i])
  {
    FlatMapSelected(cs, ClassRecord, ClassKept);
  }

  /** One record per file that is not a reference, in order. */
  function FileRecords(fs: seq<FileDef>): seq<Field>
  {
    FlatMap(fs, FileRecord)
  }

  /** The records line up one to one with the files that are kept. */
  lemma FileRecordsKept(fs: seq<FileDef>)
    ensures |FileRecords(fs)| == |Filter(fs, FileKept)|
    ensures forall i :: 0 <= i < |FileRecords(fs)| ==> [FileRecords(fs)[i]] == FileRecord(Filter(fs, FileKept)[i])
  {
    FlatMapSelected(fs, FileRecord, FileKept);
  }

  /** One record per namespace that is not a reference, in collection order. */
  function NamespaceRecords(ns: seq<NamespaceDef>): seq<Field>
  {
    FlatMap(ns, NamespaceRecord)
  }

  /** The records line up one to one with the namespaces that are kept. */
  lemma NamespaceRecordsKept(ns: seq<NamespaceDef>)
    ensures |NamespaceRecords(ns)| == |Filter(ns, NamespaceKept)|
    ensures forall i :: 0 <= i < |NamespaceRecords(ns)| ==> [NamespaceRecords(ns)[i]] == NamespaceRecord(Filter(ns, NamespaceKept)[i])
  {
    FlatMapSelected(ns, NamespaceRecord, NamespaceKept);
  }

  function EntityRecords(m: Model): seq<Field>
  {
    ClassRecords(m.classes) + FileRecords(AllFiles(m)) + NamespaceRecords(m.namespaces)
  }

  /** The top-level records after the header. */
  function Records(m: Model): (r: seq<Field>)
    ensures r == [DummyField] <==> Total(m) == 0
    ensures Total(m) > 0 ==> |r| == |Filter(m.classes, ClassKept)| + |Filter(AllFiles(m), FileKept)|
                                  + |Filter(m.namespaces, NamespaceKept)|
  {
    if Total(m) > 0 then
      var r := EntityRecords(m);
      ClassRecordsKept(m.classes);
      FileRecordsKept(AllFiles(m));
      NamespaceRecordsKept(m.namespaces);
      EntityRanks(m);
      assert r != [DummyField] by {
        if r != [] {
          assert Rank(r[0]) < 3;
        }
      }
      r
    else [DummyField]
  }

  /** The whole document: the header line, then the records one per line. */
  function Document(m: Model): (r: string)
    ensures |Header| <= |r| && r[..|Header|] == Header
    ensures Total(m) == 0 ==> r == Header + "dummy_value = true;\n"
  {
    var r := Header + RenderFields(Records(m), "\n");
    assert r[..|Header|] == Header;
    DummyRendered();
    r
  }

  /** The marker renders as the line `dummy_value = true;`. */
  lemma DummyRendered()
    ensures RenderFields([DummyField], "\n") == "dummy_value = true;\n"
  {
    assert RenderFields([DummyField], "\n") == RenderField(DummyField, "\n") + RenderFields([], "\n");
  }

  // ---------------------------------------------------------------------------
  // Order and placement of the records
  // ---------------------------------------------------------------------------

  /** Which kind of entity a top-level record describes, read off the prefix of its
      first field: 0 for a class, 1 for a file, 2 for a namespace, 3 otherwise. */
  function Rank(f: Field): nat
  {
    if f.value.Block? && f.value.fields != [] then
      var p := f.value.fields[0].key.prefix;
      if p == "cp-" then 0 else if p == "file-" then 1 else if p == "ns-" then 2 else 3
    else 3
  }

  /** Classes come first, then files, then namespaces. */
  lemma RecordsOrdered(m: Model)
    ensures forall i, j :: 0 <= i < j < |Records(m)| ==> Rank(Records(m)[i]) <= Rank(Records(m)[j])
  {
    if Total(m) > 0 {
      EntityRanks(m);
    }
  }

  /** Each entity record is ranked by the kind of entity it describes. */
  lemma EntityRanks(m: Model)
    ensures var c := |ClassRecords(m.classes)|;
            var f := |FileRecords(AllFiles(m))|;
            forall i :: 0 <= i < |EntityRecords(m)| ==>
              Rank(EntityRecords(m)[i]) == if i < c then 0 else if i < c + f then 1 else 2
  {
    ClassRanks(m.classes);
    FileRanks(AllFiles(m));
    NamespaceRanks(m.namespaces);
  }

  lemma ClassRank(x: ClassDef)
    requires ClassKept(x)
    ensures Rank(ClassRecord(x)[0]) == 0
  {
  }

  lemma ClassRanks(cs: seq<ClassDef>)
    ensures forall i :: 0 <= i < |ClassRecords(cs)| ==> Rank(ClassRecords(cs)[i]) == 0
  {
    ClassRecordsKept(cs);
    forall i | 0 <= i < |ClassRecords(cs)|
      ensures Rank(ClassRecords(cs)[i]) == 0
    {
      var x := Filter(cs, ClassKept)[i];
      assert [ClassRecords(cs)[i]] == ClassRecord(x);
      ClassRank(x);
    }
  }

  lemma FileRank(x: FileDef)
    requires FileKept(x)
    ensures Rank(FileRecord(x)[0]) == 1
  {
    assert "file-" != "cp-" by { assert "file-"[0] != "cp-"[0]; }
  }

  lemma FileRanks(fs: seq<FileDef>)
    ensures forall i :: 0 <= i < |FileRecords(fs)| ==> Rank(FileRecords(fs)[i]) == 1
  {
    FileRecordsKept(fs);
    forall i | 0 <= i < |FileRecords(fs)|
      ensures Rank(FileRecords(fs)[i]) == 1
    {
      var x := Filter(fs, FileKept)[i];
      assert [FileRecords(fs)[i]] == FileRecord(x);
      FileRank(x);
    }
  }

  lemma NamespaceRank(x: NamespaceDef)
    requires NamespaceKept(x)
    ensures Rank(NamespaceRecord(x)[0]) == 2
  {
    assert "ns-" != "cp-" by { assert "ns-"[0] != "cp-"[0]; }
    assert "ns-" != "file-" by { assert "ns-"[0] != "file-"[0]; }
  }

  lemma NamespaceRanks(ns: seq<NamespaceDef>)
    ensures forall i :: 0 <= i < |NamespaceRecords(ns)| ==> Rank(NamespaceRecords(ns)[i]) == 2
  {
    NamespaceRecordsKept(ns);
    forall i | 0 <= i < |NamespaceRecords(ns)|
      ensures Rank(NamespaceRecords(ns)[i]) == 2
    {
      var x := Filter(ns, NamespaceKept)[i];
      assert [NamespaceRecords(ns)[i]] == NamespaceRecord(x);
      NamespaceRank(x);
    }
  }

  /** A model whose collections are not all empty but whose every entity is skipped
      yields the header alone: neither an entity record nor the marker. */
  lemma HeaderOnly(m: Model)
    requires Total(m) > 0
    requires forall i :: 0 <= i < |m.classes| ==> ClassSkipped(m.classes[i])
    requires forall i :: 0 <= i < |AllFiles(m)| ==> AllFiles(m)[i].isReference
    requires forall i :: 0 <= i < |m.namespaces| ==> m.namespaces[i].isReference
    ensures Document(m) == Header
  {
    NoneKept(m.classes, ClassKept);
    NoneKept(AllFiles(m), FileKept);
    NoneKept(m.namespaces, NamespaceKept);
    ClassRecordsKept(m.classes);
    FileRecordsKept(AllFiles(m));
    NamespaceRecordsKept(m.namespaces);
    assert Records(m) == [];
  }

  lemma NoneKept<T>(s: seq<T>, p: T -> bool)
    requires forall i :: 0 <= i < |s| ==> !p(s[i])
    ensures Filter(s, p) == []
  {
    if Filter(s, p) != [] {
      assert false;
    }
  }

}
