/** Virtual arrays of the memory manager: a window in memory over a backing store, read and
    flushed chunk by chunk and zeroed on demand, that behaves as a flat array (jmemmgr.c). */
module VirtualArray {

  function Min(a: int, b: int): int {
    if a < b then a else b
  }

  /** A window at row cur shows the array in rows from..to, as far as they lie in it. */
  ghost predicate Shows<Row>(mem: seq<Row>, cur: nat, flat: seq<Row>, from: nat, to: nat) {
    forall r :: from <= r < to && cur <= r < cur + |mem| && r < |flat| ==> mem[r - cur] == flat[r]
  }

  /** The store holds the first n rows of the array, but perhaps not those in a changed window. */
  ghost predicate Stores<Row>(store: seq<Row>, flat: seq<Row>, n: nat, dirty: bool, cur: nat, size: nat) {
    forall r :: 0 <= r < n && r < |store| && r < |flat| && (!dirty || !(cur <= r < cur + size)) ==> store[r] == flat[r]
  }

  /** Rows from n on are zero. */
  ghost predicate ZeroFrom<Row>(flat: seq<Row>, n: nat, zero: Row) {
    forall r :: n <= r < |flat| ==> flat[r] == zero
  }

  /** Rows before n are unchanged, and so are the others if undefined rows count as zero. */
  ghost predicate Unchanged<Row>(before: seq<Row>, now: seq<Row>, n: nat, zeroed: bool) {
    |now| == |before| && forall r :: 0 <= r < |now| && (r < n || zeroed) ==> now[r] == before[r]
  }

  /** Samples or coefficient blocks, a row at a time. */
  class VirtualArray<Row(==)> {
    const zero: Row
    const rowsInArray: nat
    const maxaccess: nat
    const preZero: bool
    const rowsInMem: nat
    const rowsPerChunk: nat
    /** Whether a backing store was opened. */
    const bsOpen: bool
    const memBuffer: array<Row>
    const store: array<Row>

    var curStartRow: nat
    var firstUndefRow: nat
    var dirty: bool

    /** The array as its users see it. */
    ghost var flat: seq<Row>
    /** The rows last made accessible, and whether for writing. */
    ghost var lo: nat
    ghost var hi: nat
    ghost var granted: bool

    ghost predicate InWindow(r: nat)
      reads this`curStartRow
    {
      curStartRow <= r < curStartRow + rowsInMem
    }

    ghost predicate Shape()
      reads this
    {
      && memBuffer.Length == rowsInMem && store.Length == rowsInArray == |flat| && memBuffer != store
      && rowsPerChunk > 0 && rowsInMem > 0 && maxaccess > 0
      && (rowsInMem >= maxaccess || rowsInMem == rowsInArray)
      && (!bsOpen ==> rowsInMem == rowsInArray && curStartRow == 0)
      && firstUndefRow <= rowsInArray
    }

    ghost predicate Valid()
      reads this, memBuffer, store
    {
      && Shape()
      && Shows(memBuffer[..], curStartRow, flat, 0, firstUndefRow)
      && (bsOpen ==> Stores(store[..], flat, firstUndefRow, dirty, curStartRow, rowsInMem))
      && (preZero ==> ZeroFrom(flat, firstUndefRow, zero))
      && curStartRow <= lo <= hi <= Min(rowsInArray, curStartRow + rowsInMem)
      && Shows(memBuffer[..], curStartRow, flat, lo, hi)
      && (granted ==> hi <= firstUndefRow && dirty)
    }

    /** request_virt_sarray (or barray) and its realisation in room for maxMinheights accesses. */
    constructor (zero: Row, rowsInArray: nat, maxaccess: nat, preZero: bool, maxMinheights: nat, rowsPerChunk: nat)
      requires rowsInArray > 0 && maxaccess > 0 && maxMinheights > 0 && rowsPerChunk > 0
      ensures Valid() && firstUndefRow == 0 && !granted && lo == hi
      ensures this.zero == zero && this.rowsInArray == rowsInArray && this.maxaccess == maxaccess && this.preZero == preZero
      ensures preZero ==> forall r :: 0 <= r < rowsInArray ==> flat[r] == zero
      ensures fresh(memBuffer) && fresh(store)
    {
      var minheights := (rowsInArray - 1) / maxaccess + 1;
      var fits := minheights <= maxMinheights;
      var rows := if fits then rowsInArray else maxMinheights * maxaccess;
      EnoughRows(maxMinheights, maxaccess);
      this.zero, this.rowsInArray, this.maxaccess, this.preZero, this.rowsPerChunk := zero, rowsInArray, maxaccess, preZero, rowsPerChunk;
      rowsInMem, bsOpen := rows, !fits;
      memBuffer := new Row[rows](_ => zero);
      store := new Row[rowsInArray](_ => zero);
      curStartRow, firstUndefRow, dirty := 0, 0, false;
      flat, lo, hi, granted := seq(rowsInArray, _ => zero), 0, 0, false;
    }

    /** One transfer of rows between the window and the store. */
    method Transfer(i: nat, row: nat, rows: nat, writing: bool)
      requires i + rows <= memBuffer.Length && row + rows <= store.Length && memBuffer != store
      modifies memBuffer, store
      ensures if writing then memBuffer[..] == old(memBuffer[..]) else store[..] == old(store[..])
      ensures writing ==> forall r :: 0 <= r < store.Length ==>
                store[r] == if row <= r < row + rows then memBuffer[i + (r - row)] else old(store[r])
      ensures !writing ==> forall k :: 0 <= k < memBuffer.Length ==>
                memBuffer[k] == if i <= k < i + rows then store[row + (k - i)] else old(memBuffer[k])
    {
      if writing {
        forall k | row <= k < row + rows {
          store[k] := memBuffer[i + (k - row)];
        }
      } else {
        forall k | i <= k < i + rows {
          memBuffer[k] := store[row + (k - i)];
        }
      }
    }

    /** do_sarray_io, do_barray_io: transfers the defined rows of the window, chunk by chunk. */
    method DoIo(writing: bool)
      requires Shape()
      modifies memBuffer, store
      ensures if writing then memBuffer[..] == old(memBuffer[..]) else store[..] == old(store[..])
      ensures writing ==> forall r :: 0 <= r < rowsInArray ==>
                store[r] == if InWindow(r) && r < firstUndefRow then memBuffer[r - curStartRow] else old(store[r])
      ensures !writing ==> forall r :: curStartRow <= r < curStartRow + rowsInMem && r < firstUndefRow ==>
                memBuffer[r - curStartRow] == store[r]
    {
      var fileRow, i := curStartRow, 0;
      ghost var end := Min(curStartRow + rowsInMem, Min(firstUndefRow, rowsInArray));
      while i < rowsInMem
        invariant 0 <= i && (fileRow == curStartRow + i || end <= fileRow <= curStartRow + i)
        invariant if writing then memBuffer[..] == old(memBuffer[..]) else store[..] == old(store[..])
        invariant writing ==> forall r :: 0 <= r < rowsInArray ==>
                    store[r] == if InWindow(r) && r < fileRow && r < firstUndefRow then memBuffer[r - curStartRow] else old(store[r])
        invariant !writing ==> forall r :: curStartRow <= r < curStartRow + rowsInMem && r < fileRow && r < firstUndefRow ==>
                    memBuffer[r - curStartRow] == store[r]
        decreases rowsInMem - i
      {
        var rows := Min(rowsPerChunk, rowsInMem - i);
        var thisrow := curStartRow + i;
        rows := Min(rows, firstUndefRow - thisrow);
        rows := Min(rows, rowsInArray - thisrow);
        if rows <= 0 {
          break;
        }
        Transfer(i, fileRow, rows, writing);
        fileRow := fileRow + rows;
        i := i + rowsPerChunk;
      }
    }

    /** Moves the window so that the requested rows lie in it: forwards it starts, backwards it ends with them. */
    method MoveWindow(startRow: nat, endRow: nat)
      requires Valid() && bsOpen && startRow <= endRow <= rowsInArray && endRow - startRow <= maxaccess
      requires startRow < curStartRow || endRow > curStartRow + rowsInMem
      modifies this`curStartRow, this`dirty, this`lo, this`hi, this`granted, memBuffer, store
      ensures Valid() && curStartRow <= startRow && endRow <= curStartRow + rowsInMem && !dirty && lo == hi && !granted
    {
      hide Shows, Stores, ZeroFrom;
      if dirty {
        Flush();
      }
      if startRow > curStartRow {
        LoadWindow(startRow);
      } else {
        var ltemp := endRow - rowsInMem;
        if ltemp < 0 {
          ltemp := 0;
        }
        LoadWindow(ltemp);
      }
    }

    /** Reads the window at another place. */
    method LoadWindow(startRow: nat)
      requires Valid() && bsOpen && !dirty && startRow <= rowsInArray
      modifies this`curStartRow, this`lo, this`hi, this`granted, memBuffer, store
      ensures Valid() && curStartRow == startRow && lo == hi && !granted
    {
      hide ZeroFrom;
      curStartRow := startRow;
      granted, lo, hi := false, startRow, startRow;
      DoIo(false);
    }

    /** Writes the defined rows of the window back. */
    method Flush()
      requires Valid() && bsOpen && dirty
      modifies this`dirty, this`granted, memBuffer, store
      ensures Valid() && !dirty
    {
      DoIo(true);
      dirty, granted := false, false;
    }

    /** Moves the window if the rows do not lie in it. JERR_VIRTUAL_BUG, the error for having no store to move over, cannot occur. */
    method Position(startRow: nat, endRow: nat)
      requires Valid() && startRow <= endRow <= rowsInArray && endRow - startRow <= maxaccess
      modifies this`curStartRow, this`dirty, this`lo, this`hi, this`granted, memBuffer, store
      ensures Valid() && curStartRow <= startRow && endRow <= curStartRow + rowsInMem
    {
      hide Shows, Stores, ZeroFrom;
      if startRow < curStartRow || endRow > curStartRow + rowsInMem {
        assert bsOpen;
        MoveWindow(startRow, endRow);
      }
    }

    /** access_virt_sarray, access_virt_barray: the rows start..start+num-1 of the array are found at the offset
        returned; rows never written read as zero if the array is pre-zeroed. It fails exactly for a request outside
        the array, too large, skipping rows when writing, or reading undefined rows of an array not pre-zeroed. */
    method Access(startRow: nat, numRows: nat, writable: bool) returns (ok: bool, offset: nat)
      requires Valid()
      modifies this, memBuffer, store
      ensures ok <==>
                && startRow + numRows <= rowsInArray && numRows <= maxaccess
                && (old(firstUndefRow) < startRow + numRows ==>
                      if writable then startRow <= old(firstUndefRow) else preZero)
      ensures ok ==> Valid() && lo == startRow && hi == startRow + numRows && granted == writable
      ensures ok ==> offset == startRow - curStartRow && offset + numRows <= memBuffer.Length
      ensures ok ==> memBuffer[offset..offset + numRows] == flat[startRow..startRow + numRows]
      ensures ok ==> Unchanged(old(flat), flat, old(firstUndefRow), preZero)
      ensures ok ==> firstUndefRow == if writable && old(firstUndefRow) < hi then hi else old(firstUndefRow)
    {
      hide Shows, Stores, ZeroFrom, Unchanged;
      var endRow := startRow + numRows;
      ok, offset := false, 0;
      if endRow > rowsInArray || numRows > maxaccess {
        return;
      }
      Position(startRow, endRow);
      granted, lo, hi := false, curStartRow, curStartRow;
      ShowsNothing(memBuffer[..], curStartRow, flat, lo);
      ok := Define(startRow, endRow, writable);
      if !ok {
        return;
      }
      offset := Grant(startRow, endRow, writable);
    }

    /** The rows, defined and in the window, are the caller's. */
    method Grant(startRow: nat, endRow: nat, writable: bool) returns (offset: nat)
      requires Shape() && Shows(memBuffer[..], curStartRow, flat, 0, firstUndefRow)
      requires Shows(memBuffer[..], curStartRow, flat, startRow, endRow) && (writable ==> endRow <= firstUndefRow)
      requires bsOpen ==> Stores(store[..], flat, firstUndefRow, dirty || writable, curStartRow, rowsInMem)
      requires preZero ==> ZeroFrom(flat, firstUndefRow, zero)
      requires curStartRow <= startRow <= endRow <= Min(rowsInArray, curStartRow + rowsInMem)
      modifies this`dirty, this`lo, this`hi, this`granted
      ensures Valid() && lo == startRow && hi == endRow && granted == writable
      ensures offset == startRow - curStartRow && offset + (endRow - startRow) <= memBuffer.Length
      ensures memBuffer[offset..offset + (endRow - startRow)] == flat[startRow..endRow]
    {
      hide Shows, Stores, ZeroFrom;
      if writable {
        dirty := true;
      }
      lo, hi, granted := startRow, endRow, writable;
      offset := startRow - curStartRow;
      ShownSlice(memBuffer[..], curStartRow, flat, startRow, endRow);
    }

    /** Makes the rows to be accessed defined, zeroing those that never were if that was asked for. */
    method Define(startRow: nat, endRow: nat, writable: bool) returns (ok: bool)
      requires Valid() && !granted && lo == hi
      requires curStartRow <= startRow <= endRow <= Min(rowsInArray, curStartRow + rowsInMem)
      modifies this`firstUndefRow, this`flat, memBuffer
      ensures ok <==> (old(firstUndefRow) < endRow ==> if writable then startRow <= old(firstUndefRow) else preZero)
      ensures ok ==> Shape() && Shows(memBuffer[..], curStartRow, flat, 0, firstUndefRow)
      ensures ok ==> Shows(memBuffer[..], curStartRow, flat, startRow, endRow)
      ensures ok && bsOpen ==> Stores(store[..], flat, firstUndefRow, dirty || writable, curStartRow, rowsInMem)
      ensures ok && preZero ==> ZeroFrom(flat, firstUndefRow, zero)
      ensures ok ==> Unchanged(old(flat), flat, old(firstUndefRow), preZero)
      ensures ok ==> firstUndefRow == if writable && old(firstUndefRow) < endRow then endRow else old(firstUndefRow)
    {
      ok := true;
      if firstUndefRow < endRow {
        var undefRow: nat;
        if firstUndefRow < startRow {
          if writable {
            return false;
          }
          undefRow := startRow;
        } else {
          undefRow := firstUndefRow;
        }
        if preZero {
          ZeroRows(undefRow, endRow);
        } else if !writable {
          return false;
        } else {
          flat := Adopt(undefRow, endRow);
        }
        if writable {
          firstUndefRow := endRow;
        }
      }
    }

    /** The array with the present contents of newly defined rows taken over from the window. */
    ghost function Adopt(from: nat, to: nat): (f: seq<Row>)
      requires Shape() && curStartRow <= from <= to <= rowsInArray && to <= curStartRow + rowsInMem
      reads this, memBuffer
      ensures |f| == |flat|
      ensures forall r :: 0 <= r < |f| ==> f[r] == if from <= r < to then memBuffer[r - curStartRow] else flat[r]
    {
      flat[..from] + memBuffer[from - curStartRow..to - curStartRow] + flat[to..]
    }

    method ZeroRows(from: nat, to: nat)
      requires Shape() && curStartRow <= from <= to <= curStartRow + rowsInMem
      modifies memBuffer
      ensures forall k :: 0 <= k < memBuffer.Length ==>
                memBuffer[k] == if from - curStartRow <= k < to - curStartRow then zero else old(memBuffer[k])
    {
      var undefRow, end := from - curStartRow, to - curStartRow;
      while undefRow < end
        invariant from - curStartRow <= undefRow <= end
        invariant forall k :: 0 <= k < memBuffer.Length ==>
                    memBuffer[k] == if from - curStartRow <= k < undefRow then zero else old(memBuffer[k])
      {
        memBuffer[undefRow] := zero;
        undefRow := undefRow + 1;
      }
    }

    /** The caller writes a row it was given access to. */
    method Write(r: nat, v: Row)
      requires Valid() && granted && lo <= r < hi
      modifies memBuffer, this`flat
      ensures Valid() && flat == old(flat)[r := v]
    {
      memBuffer[r - curStartRow] := v;
      flat := flat[r := v];
    }

    /** The caller reads a row it was given access to. */
    method Read(r: nat) returns (v: Row)
      requires Valid() && lo <= r < hi
      ensures v == flat[r]
    {
      v := memBuffer[r - curStartRow];
    }
  }

  lemma ShownSlice<Row>(mem: seq<Row>, cur: nat, flat: seq<Row>, from: nat, to: nat)
    requires Shows(mem, cur, flat, from, to) && cur <= from <= to <= cur + |mem| && to <= |flat|
    ensures mem[from - cur..to - cur] == flat[from..to]
  {
    forall k | 0 <= k < to - from
      ensures mem[from - cur..to - cur][k] == flat[from..to][k]
    {
      assert mem[(from + k) - cur] == flat[from + k];
    }
  }

  lemma ShowsNothing<Row>(mem: seq<Row>, cur: nat, flat: seq<Row>, at: nat)
    ensures Shows(mem, cur, flat, at, at)
  {
  }

  lemma EnoughRows(n: nat, k: nat)
    requires n > 0
    ensures n * k >= k
  {
  }
}
