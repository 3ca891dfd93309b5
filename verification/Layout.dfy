/**
 The addresses that the field iterator computes are those of the C struct, for descriptors that are built as
 the macros of `pb.h` build them.
 */
module Layout {
  import opened Wire
  import opened Descriptor

  /** Where a field is declared: first in the struct, behind another field, or in the union of the field before it. */
  datatype Placement = First | Other | InUnion

  /**
   A member of the struct: where the compiler puts it, how large it is, and where the member is that says
   whether it is there, how many entries it has, or which member of its union is stored. Where there is no such
   member, `tracker` is the offset of the member itself.
   */
  datatype Member = Member(offset: nat, size: nat, tracker: nat, placement: Placement)

  /** What the macros put into the entry of a member, given the member before it. */
  predicate Entry(f: Field, c: Member, before: Member) {
    && f.sizeOffset == c.tracker - c.offset
    && c.size == (if f.htype.Repeated? then f.dataSize * f.arraySize else f.dataSize)
    && match c.placement
       case First => f.dataOffset == c.offset
       case Other => f.dataOffset == c.offset - before.offset - before.size
       case InUnion => f.dataOffset == PB_SIZE_MAX
  }

  predicate BuiltFor(fields: seq<Field>, members: seq<Member>) {
    && |fields| == |members|
    && (forall i :: 0 <= i < |fields| ==> (members[i].placement.First? <==> i == 0))
    && (forall i :: 0 <= i < |fields| ==> Entry(fields[i], members[i], members[if i == 0 then 0 else i - 1]))
    && (forall i :: 0 < i < |fields| && members[i].placement.InUnion? ==>
          fields[i - 1].htype.OneOf? && fields[i].htype.OneOf?
          && members[i].offset == members[i - 1].offset && members[i].tracker == members[i - 1].tracker)
  }

  /** No gap between the end of one union and the next has the size that marks a member of the same union. */
  predicate Unmistakable(fields: seq<Field>, members: seq<Member>)
    requires |fields| == |members|
  {
    forall i :: 0 < i < |fields| && members[i].placement.Other? && fields[i - 1].htype.OneOf? && fields[i].htype.OneOf?
      ==> members[i].offset - members[i - 1].offset - members[i - 1].size != PB_SIZE_MAX
  }

  predicate Right(fields: seq<Field>, members: seq<Member>, i: nat)
    requires |fields| == |members| && i < |fields|
  {
    DataAddress(fields, i) == members[i].offset && SizeAddress(fields, i) == members[i].tracker
  }

  lemma {:induction false} RightUpTo(fields: seq<Field>, members: seq<Member>, i: nat)
    requires BuiltFor(fields, members) && Unmistakable(fields, members) && i < |fields|
    ensures Right(fields, members, i)
    decreases i
  {
    assert Entry(fields[i], members[i], members[if i == 0 then 0 else i - 1]);
    if i > 0 {
      assert Entry(fields[i - 1], members[i - 1], members[if i - 1 == 0 then 0 else i - 1 - 1]);
      RightUpTo(fields, members, i - 1);
    }
  }

  lemma GapSeen(fields: seq<Field>, members: seq<Member>, i: nat)
    requires BuiltFor(fields, members) && 0 < i < |fields| && Right(fields, members, i - 1)
    requires members[i].placement.Other? && fields[i - 1].htype.OneOf? && fields[i].htype.OneOf?
    ensures Right(fields, members, i) ==> members[i].offset - members[i - 1].offset - members[i - 1].size != PB_SIZE_MAX
  {
    assert Entry(fields[i], members[i], members[if i == 0 then 0 else i - 1]);
  }

  /**
   The iterator finds every member of the struct and what tracks it, if and only if no gap between two unions
   is mistaken for the mark of a union.
   */
  lemma AddressesAreOffsets(fields: seq<Field>, members: seq<Member>)
    requires BuiltFor(fields, members)
    ensures (forall i :: 0 <= i < |fields| ==>
               DataAddress(fields, i) == members[i].offset && SizeAddress(fields, i) == members[i].tracker)
       <==> Unmistakable(fields, members)
  {
    hide DataAddress, SizeAddress, Entry;
    if Unmistakable(fields, members) {
      forall i | 0 <= i < |fields|
        ensures DataAddress(fields, i) == members[i].offset && SizeAddress(fields, i) == members[i].tracker
      {
        RightUpTo(fields, members, i);
      }
    }
    if forall i :: 0 <= i < |fields| ==> DataAddress(fields, i) == members[i].offset && SizeAddress(fields, i) == members[i].tracker {
      forall i | 0 < i < |fields| && members[i].placement.Other? && fields[i - 1].htype.OneOf? && fields[i].htype.OneOf?
        ensures members[i].offset - members[i - 1].offset - members[i - 1].size != PB_SIZE_MAX
      {
        assert Right(fields, members, i - 1) && Right(fields, members, i);
        GapSeen(fields, members, i);
      }
    }
  }
}
