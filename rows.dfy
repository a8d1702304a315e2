/** Which rows of the result table show their feature badges: a set of
    property ids, one id flipped per click. */
module RowExpansion {

  /** The set with `id`'s membership flipped and every other id untouched. */
  function Toggled(rows: set<string>, id: string): (r: set<string>)
    ensures id in r <==> id !in rows
    ensures forall x :: x != id ==> (x in r <==> x in rows)
  {
    if id in rows then rows - {id} else rows + {id}
  }

  /** Flipping the same row twice restores the set. */
  lemma ToggledTwice(rows: set<string>, id: string)
    ensures Toggled(Toggled(rows, id), id) == rows
  {
    var r := Toggled(Toggled(rows, id), id);
    forall x
      ensures x in r <==> x in rows
    {
      if x != id {
        assert x in Toggled(rows, id) <==> x in rows;
      }
    }
  }

  /** `toggleRowExpand`'s update of the expanded rows: copy the previous set,
      then delete the id if it is there and add it otherwise. */
  method ToggleRowExpand(prev: set<string>, propertyId: string) returns (next: set<string>)
    ensures next == Toggled(prev, propertyId)
    ensures propertyId in next <==> propertyId !in prev
  {
    next := prev;
    if propertyId in next {
      next := next - {propertyId};
    } else {
      next := next + {propertyId};
    }
  }
}
