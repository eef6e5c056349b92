/** cpp/cpp_target.cpp (advance_buffers): buffers of shifting arrays hold rows at other places than their own,
    and move them back from time to time.  Memory of all arrays together, as a map of addresses.
 */
module MovedRows {
  import opened IslModel
  import opened FoldedMemory
  import opened ScheduledPrograms

  /** For each array whether its buffer shifts, and then by how many rows its rows are displaced in the
      buffer, the first row that is still there, and the last that was written. */
  datatype View = View(shifting: bool, ahead: int, first: int, last: int)

  predicate IsMoved(views: seq<View>, c: Place) {
    c.arr < |views| && views[c.arr].shifting && c.index != []
  }

  /** Where the buffer holds a cell. */
  function MovedTo(views: seq<View>, c: Place): Place {
    if IsMoved(views, c) then Place(c.arr, Shifted(c.index, views[c.arr].ahead)) else c
  }

  ghost predicate Kept(views: seq<View>, c: Place) {
    IsMoved(views, c) ==> c.index[0] >= views[c.arr].first
  }

  ghost predicate Written(views: seq<View>, c: Place) {
    IsMoved(views, c) ==> c.index[0] <= views[c.arr].last
  }

  ghost predicate Holds(views: seq<View>, memory: map<Place, int>, cells: map<Place, int>, c: Place) {
    c in cells ==> Written(views, c) && (Kept(views, c) ==> Lookup(memory, MovedTo(views, c)) == cells[c])
  }

  /** Memory holds, where it is looked for, every cell that is kept. */
  ghost predicate Mirrors(views: seq<View>, memory: map<Place, int>, cells: map<Place, int>) {
    forall c :: Holds(views, memory, cells, c)
  }

  lemma MovedApart(views: seq<View>, c: Place, d: Place)
    requires MovedTo(views, c) == MovedTo(views, d)
    ensures c == d
  {
    if IsMoved(views, c) {
      assert c.index == Shifted(Shifted(c.index, views[c.arr].ahead), -views[c.arr].ahead);
      assert d.index == Shifted(Shifted(d.index, views[c.arr].ahead), -views[c.arr].ahead);
    }
  }

  lemma WriteMirrors(views: seq<View>, memory: map<Place, int>, cells: map<Place, int>, c: Place, v: int)
    requires Mirrors(views, memory, cells) && Written(views, c)
    ensures Mirrors(views, memory[MovedTo(views, c) := v], cells[c := v])
  {
    var m, after := memory[MovedTo(views, c) := v], cells[c := v];
    forall d ensures Holds(views, m, after, d) {
      assert Holds(views, memory, cells, d);
      if d != c && MovedTo(views, d) == MovedTo(views, c) {
        MovedApart(views, d, c);
      }
    }
  }

  lemma ReadMirrors(views: seq<View>, memory: map<Place, int>, cells: map<Place, int>, c: Place)
    requires Mirrors(views, memory, cells) && c in cells && Kept(views, c)
    ensures Lookup(memory, MovedTo(views, c)) == Lookup(cells, c)
  {
    assert Holds(views, memory, cells, c);
  }

  // ---- The end of a period ------------------------------------------------------------------

  /** One array's view changes, and memory does not: rows are looked for where they were. */
  lemma LaterViewMirrors(views: seq<View>, memory: map<Place, int>, cells: map<Place, int>, k: nat, v: View)
    requires Mirrors(views, memory, cells) && k < |views| && v.shifting == views[k].shifting
    requires v.first >= views[k].first && v.last >= views[k].last
    requires v.ahead == views[k].ahead || v.first > views[k].last
    ensures Mirrors(views[k := v], memory, cells)
  {
    var later := views[k := v];
    forall c ensures Holds(later, memory, cells, c) {
      assert Holds(views, memory, cells, c);
    }
  }

  /** The rows that a shift writes to. */
  predicate InRows(q: Place, k: nat, dest: int, size: int) {
    q.arr == k && q.index != [] && dest <= q.index[0] < dest + size
  }

  /** Rows dest, ..., dest + size - 1 of array k become the rows that are `back` rows further. */
  ghost predicate IsShiftOf(memory: map<Place, int>, after: map<Place, int>, k: nat, dest: int, size: int, back: int) {
    forall q :: Lookup(after, q)
             == if InRows(q, k, dest, size) then Lookup(memory, Place(k, Shifted(q.index, back))) else Lookup(memory, q)
  }

  method ShiftMemory(memory: map<Place, int>, k: nat, dest: int, size: int, back: int) returns (after: map<Place, int>)
    ensures IsShiftOf(memory, after, k, dest, size, back)
  {
    var others := set q | q in memory && !InRows(q, k, dest, size);
    var copied := set q | q in memory && InRows(q, k, dest + back, size) :: Place(k, Shifted(q.index, -back));
    after := map q | q in others + copied ::
      if q in others then memory[q] else Lookup(memory, Place(k, Shifted(q.index, back)));
    forall q ensures Lookup(after, q)
                  == if InRows(q, k, dest, size) then Lookup(memory, Place(k, Shifted(q.index, back))) else Lookup(memory, q)
    {
      if InRows(q, k, dest, size) {
        var p := Place(k, Shifted(q.index, back));
        assert q.index == Shifted(p.index, -back);
        if p in memory {
          assert InRows(p, k, dest + back, size);
        }
      }
    }
  }

  /** The same with a shift: the rows that remain are in the shifted range, and are looked for there. */
  lemma ShiftMirrors(views: seq<View>, memory: map<Place, int>, after: map<Place, int>, cells: map<Place, int>, k: nat, v: View,
                     dest: int, size: int, back: int)
    requires Mirrors(views, memory, cells) && k < |views| && v.shifting && views[k].shifting
    requires IsShiftOf(memory, after, k, dest, size, back)
    requires v.first >= views[k].first && v.last >= views[k].last && v.ahead == views[k].ahead - back
    requires dest <= v.first + v.ahead && views[k].last + v.ahead < dest + size
    ensures Mirrors(views[k := v], after, cells)
  {
    var later := views[k := v];
    forall c ensures Holds(later, after, cells, c) {
      assert Holds(views, memory, cells, c);
      var q := MovedTo(later, c);
      assert Lookup(after, q)
          == if InRows(q, k, dest, size) then Lookup(memory, Place(k, Shifted(q.index, back))) else Lookup(memory, q);
      if c in cells && c.arr == k && c.index != [] && Kept(later, c) {
        assert Shifted(Shifted(c.index, v.ahead), back) == Shifted(c.index, views[k].ahead);
      }
    }
  }
}
