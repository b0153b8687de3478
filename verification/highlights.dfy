/**
 * The highlight categories of the index pages, numbered from zero in declaration
 * order, and the counts that size the tables indexed by them. Each count is written
 * in the source as the last category plus one; here it is the number of categories.
 */
module Highlights {

  /** The categories of the tabs of the class member index. */
  datatype ClassMemberHighlight = All | Functions | Variables | Typedefs | Enums | EnumValues | Properties | Events | Related

  /** Every category, at the position of its number. */
  const ClassMemberHighlights: seq<ClassMemberHighlight> :=
    [ ClassMemberHighlight.All, ClassMemberHighlight.Functions, ClassMemberHighlight.Variables,
      ClassMemberHighlight.Typedefs, ClassMemberHighlight.Enums, ClassMemberHighlight.EnumValues,
      ClassMemberHighlight.Properties, ClassMemberHighlight.Events, ClassMemberHighlight.Related ]

  const ClassMemberTotal: nat := 9

  /** The number the enumeration gives a category. */
  function ClassMemberOrdinal(h: ClassMemberHighlight): (r: nat)
    ensures r < ClassMemberTotal
    ensures ClassMemberHighlights[r] == h
  {
    match h
    case All => 0
    case Functions => 1
    case Variables => 2
    case Typedefs => 3
    case Enums => 4
    case EnumValues => 5
    case Properties => 6
    case Events => 7
    case Related => 8
  }

  /** The count is one past the last category and equals the number of categories,
      each of which sits at its own number. */
  lemma ClassMemberCount()
    ensures ClassMemberTotal == ClassMemberOrdinal(ClassMemberHighlight.Related) + 1
    ensures ClassMemberTotal == |ClassMemberHighlights|
    ensures forall i :: 0 <= i < |ClassMemberHighlights| ==> ClassMemberOrdinal(ClassMemberHighlights[i]) == i
  {
  }

  /** The categories of the tabs of the file member index. */
  datatype FileMemberHighlight = All | Functions | Variables | Typedefs | Sequences | Dictionaries | Enums | EnumValues | Defines

  /** Every category, at the position of its number. */
  const FileMemberHighlights: seq<FileMemberHighlight> :=
    [ FileMemberHighlight.All, FileMemberHighlight.Functions, FileMemberHighlight.Variables,
      FileMemberHighlight.Typedefs, FileMemberHighlight.Sequences, FileMemberHighlight.Dictionaries,
      FileMemberHighlight.Enums, FileMemberHighlight.EnumValues, FileMemberHighlight.Defines ]

  const FileMemberTotal: nat := 9

  /** The number the enumeration gives a category. */
  function FileMemberOrdinal(h: FileMemberHighlight): (r: nat)
    ensures r < FileMemberTotal
    ensures FileMemberHighlights[r] == h
  {
    match h
    case All => 0
    case Functions => 1
    case Variables => 2
    case Typedefs => 3
    case Sequences => 4
    case Dictionaries => 5
    case Enums => 6
    case EnumValues => 7
    case Defines => 8
  }

  /** The count is one past the last category and equals the number of categories,
      each of which sits at its own number. */
  lemma FileMemberCount()
    ensures FileMemberTotal == FileMemberOrdinal(FileMemberHighlight.Defines) + 1
    ensures FileMemberTotal == |FileMemberHighlights|
    ensures forall i :: 0 <= i < |FileMemberHighlights| ==> FileMemberOrdinal(FileMemberHighlights[i]) == i
  {
  }

  /** The categories of the tabs of the namespace member index. */
  datatype NamespaceMemberHighlight = All | Functions | Variables | Typedefs | Sequences | Dictionaries | Enums | EnumValues

  /** Every category, at the position of its number. */
  const NamespaceMemberHighlights: seq<NamespaceMemberHighlight> :=
    [ NamespaceMemberHighlight.All, NamespaceMemberHighlight.Functions, NamespaceMemberHighlight.Variables,
      NamespaceMemberHighlight.Typedefs, NamespaceMemberHighlight.Sequences, NamespaceMemberHighlight.Dictionaries,
      NamespaceMemberHighlight.Enums, NamespaceMemberHighlight.EnumValues ]

  const NamespaceMemberTotal: nat := 8

  /** The number the enumeration gives a category. */
  function NamespaceMemberOrdinal(h: NamespaceMemberHighlight): (r: nat)
    ensures r < NamespaceMemberTotal
    ensures NamespaceMemberHighlights[r] == h
  {
    match h
    case All => 0
    case Functions => 1
    case Variables => 2
    case Typedefs => 3
    case Sequences => 4
    case Dictionaries => 5
    case Enums => 6
    case EnumValues => 7
  }

  /** The count is one past the last category and equals the number of categories,
      each of which sits at its own number. */
  lemma NamespaceMemberCount()
    ensures NamespaceMemberTotal == NamespaceMemberOrdinal(NamespaceMemberHighlight.EnumValues) + 1
    ensures NamespaceMemberTotal == |NamespaceMemberHighlights|
    ensures forall i :: 0 <= i < |NamespaceMemberHighlights| ==> NamespaceMemberOrdinal(NamespaceMemberHighlights[i]) == i
  {
  }

  /** The categories of the tabs of the class index. */
  datatype ClassHighlight = All | Classes | Structs | Unions | Interfaces | Protocols | Categories | Exceptions

  /** Every category, at the position of its number. */
  const ClassHighlights: seq<ClassHighlight> :=
    [ ClassHighlight.All, ClassHighlight.Classes, ClassHighlight.Structs,
      ClassHighlight.Unions, ClassHighlight.Interfaces, ClassHighlight.Protocols,
      ClassHighlight.Categories, ClassHighlight.Exceptions ]

  const ClassTotal: nat := 8

  /** The number the enumeration gives a category. */
  function ClassOrdinal(h: ClassHighlight): (r: nat)
    ensures r < ClassTotal
    ensures ClassHighlights[r] == h
  {
    match h
    case All => 0
    case Classes => 1
    case Structs => 2
    case Unions => 3
    case Interfaces => 4
    case Protocols => 5
    case Categories => 6
    case Exceptions => 7
  }

  /** The count is one past the last category and equals the number of categories,
      each of which sits at its own number. */
  lemma ClassCount()
    ensures ClassTotal == ClassOrdinal(ClassHighlight.Exceptions) + 1
    ensures ClassTotal == |ClassHighlights|
    ensures forall i :: 0 <= i < |ClassHighlights| ==> ClassOrdinal(ClassHighlights[i]) == i
  {
  }

}
