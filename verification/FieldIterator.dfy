/**
 The circular iterator over a descriptor. It moves in place and computes addresses step by step;
 its contracts say that it is always where a walk from the start would be.
 */
module FieldIterator {
  import opened Descriptor
  import opened Decoding
  import opened Options

  /** Where the count of a field is kept: in the struct, or in the local counter of the field loop. */
  datatype SizePointer = InStruct(address: int) | LoopCounter

  /** `pb_field_iter_t`. Addresses are relative to the struct; position `|start|` is the terminator. */
  class FieldIter {
    const start: seq<Field>
    var pos: nat
    var requiredFieldIndex: nat
    var pData: int
    var pSize: SizePointer

    ghost predicate Valid()
      reads this
    {
      && WellFormed(start)
      && (pos < |start| || (pos == 0 && start == []))
      && pData == DataAddress(start, pos)
      && requiredFieldIndex == RequiredIndex(start, pos)
      && (pSize == InStruct(SizeAddress(start, pos)) || (pSize == LoopCounter && FixedCount(FieldAt(start, pos))))
    }

    /** As after a walk from the start: the count is where the descriptor says. */
    ghost predicate Direct()
      reads this
    {
      Valid() && pSize == InStruct(SizeAddress(start, pos))
    }

    constructor (fields: seq<Field>)
      requires WellFormed(fields)
      ensures start == fields && Direct() && pos == 0
    {
      start := fields;
      pos := 0;
      requiredFieldIndex := 0;
      pData := FieldAt(fields, 0).dataOffset;
      pSize := InStruct(FieldAt(fields, 0).dataOffset + FieldAt(fields, 0).sizeOffset);
    }

    /** `pb_field_iter_begin` */
    method Begin() returns (nonEmpty: bool)
      requires WellFormed(start)
      modifies this
      ensures Direct() && pos == 0
      ensures nonEmpty <==> start != []
    {
      pos := 0;
      requiredFieldIndex := 0;
      pData := FieldAt(start, 0).dataOffset;
      pSize := InStruct(pData + FieldAt(start, 0).sizeOffset);
      nonEmpty := FieldAt(start, 0).tag != 0;
      assert start != [] ==> WellFormedField(start[0]);
    }

    /** `pb_field_iter_next` */
    method Next() returns (more: bool)
      requires Valid()
      modifies this
      ensures Direct()
      ensures more <==> old(pos) + 1 < |start|
      ensures pos == if more then old(pos) + 1 else 0
    {
      var prev := FieldAt(start, pos);
      assert start != [] ==> WellFormedField(start[pos]);
      if prev.tag == 0 {
        return false;
      }
      pos := pos + 1;
      var field := FieldAt(start, pos);
      assert pos < |start| ==> WellFormedField(start[pos]);
      if field.tag == 0 {
        var nonEmpty := Begin();
        return false;
      }
      var prevSize := prev.dataSize;
      if prev.htype.OneOf? && field.htype.OneOf? && field.dataOffset == PB_SIZE_MAX {
        // inside a union the pointers stay
        return true;
      } else if prev.htype.Repeated? {
        prevSize := prevSize * prev.arraySize;
      }
      if prev.htype.Required? {
        requiredFieldIndex := requiredFieldIndex + 1;
      }
      pData := pData + prevSize + field.dataOffset;
      pSize := InStruct(pData + field.sizeOffset);
      return true;
    }

    /**
     `pb_field_iter_find`: searches the whole circle once, from any position. It finds the field with
     the tag if there is one; otherwise it is back where it was.
     */
    method Find(tag: nat) returns (found: bool, ghost steps: nat)
      requires Valid()
      modifies this
      ensures Valid() && steps <= (if start == [] then 1 else |start|)
      ensures found <==> FindField(start, tag).Some?
      ensures pos == if found then FindField(start, tag).value else old(pos)
      ensures if found && pos == old(pos) then pSize == old(pSize) else Direct()
    {
      var startPos := pos;
      var first := true;
      ghost var wrapped := false;
      steps := 0;
      while first || pos != startPos
        invariant Valid()
        invariant first ==> pos == startPos && pSize == old(pSize) && !wrapped
        invariant !first ==> Direct()
        invariant start == [] ==> startPos == 0 && (first || tag != 0) && (wrapped <==> !first)
        invariant !wrapped ==> startPos <= pos && (!first ==> startPos < pos) && NotAmong(startPos, pos, tag)
        invariant wrapped ==> pos <= startPos && NotAmong(startPos, |start|, tag) && NotAmong(0, pos, tag)
        invariant steps == (if wrapped then |start| - startPos + pos + (if start == [] then 1 else 0) else pos - startPos)
        decreases if first then |start| + 2 else if wrapped then startPos - pos else |start| - pos + startPos + 1
      {
        if FieldAt(start, pos).tag == tag {
          FoundIt(start, pos, tag);
          return true, steps;
        }
        var more := Next();
        first := false;
        steps := steps + 1;
        if !more { wrapped := true; }
      }
      NotThere(start, tag);
      return false, steps;
    }

    /** No field from `lo` to `hi` has the tag. */
    ghost predicate NotAmong(lo: nat, hi: nat, tag: nat) {
      forall j :: lo <= j < hi && j < |start| ==> start[j].tag != tag
    }
  }

  lemma FoundIt(fields: seq<Field>, i: nat, tag: nat)
    requires WellFormed(fields) && (i < |fields| || (i == 0 && fields == [])) && FieldAt(fields, i).tag == tag
    ensures FindField(fields, tag) == Some(i)
  {
  }

  lemma NotThere(fields: seq<Field>, tag: nat)
    requires (forall j :: 0 <= j < |fields| ==> fields[j].tag != tag) && (fields == [] ==> tag != 0)
    ensures FindField(fields, tag).None?
  {
  }
}
