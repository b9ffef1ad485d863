/** The circular field iterator of nanopb (nanopb/pb_common.c). */
module NanopbIterators {
  import opened NanopbMessages

  class FieldIter {
    const fields: seq<Field>
    /** The current field; an empty message type has none. */
    var pos: nat
    /** The number of required fields before it. */
    var requiredIndex: nat

    ghost predicate Valid()
      reads this
    {
      && (pos < |fields| || (fields == [] && pos == 0))
      && requiredIndex == RequiredBefore(fields, pos)
    }

    /** pb_field_iter_begin; the message type is empty when `fields` is. */
    constructor (fields: seq<Field>)
      ensures Valid() && this.fields == fields && pos == 0
    {
      this.fields := fields;
      pos, requiredIndex := 0, 0;
    }

    /** Step to the next field; after the last one, wrap around and say so. */
    method Next() returns (more: bool)
      requires Valid()
      modifies this
      ensures Valid() && (more <==> old(pos) + 1 < |fields|)
      ensures pos == if more then old(pos) + 1 else 0
    {
      if fields == [] {
        return false;
      }
      var previous := fields[pos];
      pos := pos + 1;
      if pos == |fields| {
        pos, requiredIndex := 0, 0;
        return false;
      }
      if previous.htype == Required {
        requiredIndex := requiredIndex + 1;
      }
      more := true;
    }

    /** Search from the current field once around. */
    method Find(tag: nat) returns (found: bool)
      requires Valid() && fields != []
      modifies this
      ensures Valid()
      ensures found ==> fields[pos].tag == tag
      ensures !found ==> forall i :: 0 <= i < |fields| ==> fields[i].tag != tag
    {
      var start := pos;
      ghost var wrapped := false;
      while true
        invariant Valid() && (!wrapped ==> start <= pos) && (wrapped ==> pos <= start)
        invariant !wrapped ==> forall i :: start <= i < pos ==> fields[i].tag != tag
        invariant wrapped ==> forall i :: (0 <= i < pos || start <= i < |fields|) ==> fields[i].tag != tag
        invariant wrapped ==> pos < start
        decreases if wrapped then start - pos else |fields| + |fields| - pos
      {
        if fields[pos].tag == tag {
          return true;
        }
        var more := Next();
        if !more {
          wrapped := true;
        }
        if pos == start {
          return false;
        }
      }
    }
  }
}
