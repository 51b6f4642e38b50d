/**
 Exact tiling: in address order the cells of a key, an orphan or a whole hive follow one another
 without gap or overlap, so the order in which the writer places and copies them is irrelevant.
 */
module HiveTiling {
  import opened LittleEndian
  import opened HiveCells

  /** The cells start at `from`, each begins where the one before ends, and the last ends at `to`. */
  predicate Tiled(cells: seq<Cell>, from: nat, to: nat) {
    if cells == [] then from == to
    else cells[0].off == from && Tiled(cells[1..], from + |cells[0].bytes|, to)
  }

  /** The bytes of the cells one after the other. */
  function Image(cells: seq<Cell>): Bytes {
    if cells == [] then [] else cells[0].bytes + Image(cells[1..])
  }

  /** A cell whose size field and alignment agree with the bytes it occupies. */
  predicate Framed(c: Cell, live: bool) {
    && |c.bytes| >= 8 && Aligned(|c.bytes|)
    && At(c.bytes, 0, LE32(if live then -|c.bytes| else |c.bytes|))
  }

  predicate AllFramed(cells: seq<Cell>, live: bool) {
    forall c :: c in cells ==> Framed(c, live)
  }

  predicate Apart(a: Cell, b: Cell) {
    a.off + |a.bytes| <= b.off || b.off + |b.bytes| <= a.off
  }

  predicate PairwiseApart(cells: seq<Cell>) {
    forall i, j :: 0 <= i < j < |cells| ==> Apart(cells[i], cells[j])
  }

  predicate Within(cells: seq<Cell>, from: nat, to: nat) {
    forall c :: c in cells ==> from <= c.off && c.off + |c.bytes| <= to
  }

  /** Every cell's bytes are found at its offset. */
  predicate Holds(h: Bytes, cells: seq<Cell>) {
    forall c :: c in cells ==> At(h, c.off, c.bytes)
  }

  // ---------- general facts ----------

  lemma {:induction false} TiledConcat(a: seq<Cell>, b: seq<Cell>, from: nat, mid: nat, to: nat)
    requires Tiled(a, from, mid) && Tiled(b, mid, to)
    ensures Tiled(a + b, from, to)
  {
    if a == [] {
      assert a + b == b;
    } else {
      assert (a + b)[1..] == a[1..] + b;
      TiledConcat(a[1..], b, from + |a[0].bytes|, mid, to);
    }
  }

  lemma {:induction false} TiledWithin(cells: seq<Cell>, from: nat, to: nat)
    requires Tiled(cells, from, to)
    ensures from <= to && Within(cells, from, to) && |Image(cells)| == to - from
  {
    if cells != [] {
      TiledWithin(cells[1..], from + |cells[0].bytes|, to);
      forall c | c in cells
        ensures from <= c.off && c.off + |c.bytes| <= to
      {
        if c != cells[0] {
          assert c in cells[1..];
        }
      }
    }
  }

  lemma {:induction false} TiledApart(cells: seq<Cell>, from: nat, to: nat)
    requires Tiled(cells, from, to)
    ensures PairwiseApart(cells)
  {
    if cells != [] {
      var rest := cells[1..];
      TiledApart(rest, from + |cells[0].bytes|, to);
      TiledWithin(rest, from + |cells[0].bytes|, to);
      forall i, j | 0 <= i < j < |cells|
        ensures Apart(cells[i], cells[j])
      {
        assert cells[j] == rest[j - 1] && rest[j - 1] in rest;
        if i > 0 {
          assert cells[i] == rest[i - 1];
        }
      }
    }
  }

  lemma ApartConcat(a: seq<Cell>, b: seq<Cell>, from: nat, mid: nat, to: nat)
    requires PairwiseApart(a) && PairwiseApart(b)
    requires (Within(a, from, mid) && Within(b, mid, to)) || (Within(b, from, mid) && Within(a, mid, to))
    ensures PairwiseApart(a + b)
    ensures from <= mid <= to ==> Within(a + b, from, to)
  {
    var s := a + b;
    forall i, j | 0 <= i < j < |s|
      ensures Apart(s[i], s[j])
    {
      if j < |a| {
        assert Apart(a[i], a[j]);
      } else if |a| <= i {
        assert Apart(b[i - |a|], b[j - |a|]);
      } else {
        assert s[i] == a[i] && a[i] in a && s[j] == b[j - |a|] && b[j - |a|] in b;
      }
    }
  }

  lemma WithinNone(off: nat)
    ensures Within([], off, off)
  {
  }

  lemma FramedCell(payload: Bytes, live: bool, off: nat)
    ensures Framed(Cell(off, CellWithSign(payload, live)), live)
  {
    var total: int := Pad8(4 + |payload|);
    var bytes := CellWithSign(payload, live);
    assert bytes == LE32(if live then -total else total) + (payload + Zeros(total - 4 - |payload|));
    assert bytes[0..4] == LE32(if live then -total else total);
  }

  // ---------- copying cells into a buffer ----------

  function Blit(h: Bytes, off: nat, b: Bytes): (r: Bytes)
    requires off + |b| <= |h|
    ensures |r| == |h|
  {
    h[..off] + b + h[off + |b|..]
  }

  /** Copy the cells in list order. */
  function CopyAll(h: Bytes, cells: seq<Cell>): (r: Bytes)
    requires Within(cells, 0, |h|)
    ensures |r| == |h|
  {
    if cells == [] then h
    else
      var last := cells[|cells| - 1];
      assert last in cells;
      Blit(CopyAll(h, cells[..|cells| - 1]), last.off, last.bytes)
  }

  lemma {:induction false} CopyAllHolds(h: Bytes, cells: seq<Cell>)
    requires Within(cells, 0, |h|) && PairwiseApart(cells)
    ensures Holds(CopyAll(h, cells), cells)
  {
    hide At, Blit;
    if cells != [] {
      var n := |cells| - 1;
      var init, last := cells[..n], cells[n];
      assert last in cells;
      CopyAllHolds(h, init);
      var r0, r := CopyAll(h, init), CopyAll(h, cells);
      forall c | c in cells
        ensures At(r, c.off, c.bytes)
      {
        var i :| 0 <= i <= n && cells[i] == c;
        if i < n {
          assert init[i] == c && c in init && Apart(cells[i], cells[n]);
          BlitApart(r0, last, c);
        } else {
          BlitHere(r0, last);
        }
      }
    }
  }

  lemma BlitApart(h: Bytes, last: Cell, c: Cell)
    requires At(h, c.off, c.bytes) && Apart(c, last) && last.off + |last.bytes| <= |h|
    ensures At(Blit(h, last.off, last.bytes), c.off, c.bytes)
  {
    var r := Blit(h, last.off, last.bytes);
    forall k | 0 <= k < |c.bytes|
      ensures r[c.off..c.off + |c.bytes|][k] == c.bytes[k]
    {
      assert h[c.off..c.off + |c.bytes|][k] == h[c.off + k];
    }
  }

  lemma BlitHere(h: Bytes, c: Cell)
    requires c.off + |c.bytes| <= |h|
    ensures At(Blit(h, c.off, c.bytes), c.off, c.bytes)
  {
  }

  lemma {:induction false} CopyAllOutside(h: Bytes, cells: seq<Cell>, from: nat, to: nat)
    requires from <= to <= |h| && Within(cells, from, to)
    ensures forall p :: 0 <= p < |h| && (p < from || to <= p) ==> CopyAll(h, cells)[p] == h[p]
  {
    if cells != [] {
      var n := |cells| - 1;
      assert cells[n] in cells;
      CopyAllOutside(h, cells[..n], from, to);
    }
  }

  lemma {:induction false} TiledImage(h: Bytes, cells: seq<Cell>, from: nat, to: nat)
    requires Tiled(cells, from, to) && to <= |h| && Holds(h, cells)
    ensures from <= to && h[from..to] == Image(cells)
  {
    TiledWithin(cells, from, to);
    if cells != [] {
      var mid := from + |cells[0].bytes|;
      TiledImage(h, cells[1..], mid, to);
      assert cells[0] in cells;
      assert h[from..to] == h[from..mid] + h[mid..to];
    }
  }

  /**
   Copying cells that tile a region, in any order that keeps them apart, leaves exactly their
   image in the region and everything around it as it was.
   */
  lemma CopyAnyOrder(h: Bytes, placed: seq<Cell>, tiles: seq<Cell>, from: nat, to: nat)
    requires Tiled(tiles, from, to) && to <= |h|
    requires PairwiseApart(placed) && multiset(placed) == multiset(tiles)
    ensures Within(placed, 0, |h|) && from <= to
    ensures CopyAll(h, placed) == h[..from] + Image(tiles) + h[to..]
  {
    hide Tiled, Image, PairwiseApart, At, CopyAll, Blit;
    TiledWithin(tiles, from, to);
    SameMembers(placed, tiles);
    CopyAllHolds(h, placed);
    CopyAllOutside(h, placed, from, to);
    var r := CopyAll(h, placed);
    TiledImage(r, tiles, from, to);
    assert r[..from] == h[..from];
    assert r[to..] == h[to..];
    assert r == r[..from] + r[from..to] + r[to..];
  }

  lemma SameMembers(a: seq<Cell>, b: seq<Cell>)
    requires multiset(a) == multiset(b)
    ensures forall c :: c in a <==> c in b
  {
    forall c
      ensures c in a <==> c in b
    {
      assert c in a <==> c in multiset(a);
      assert c in b <==> c in multiset(b);
    }
  }

  // ---------- the cells the writer lays out ----------

  lemma ValueTiled(v: ValueSpec, off: nat, live: bool)
    ensures Tiled(ValueCells(v, off, live), off, off + ValueSize(v))
    ensures AllFramed(ValueCells(v, off, live), live)
  {
    hide CellWithSign, VkPayload, CellSize, Framed;
    var vk := VkCell(v, off, live);
    assert Tiled([vk], VkOff(v, off), off + ValueSize(v));
    FramedCell(v.data, live, off);
    FramedCell(VkPayload(v, DataSizeRaw(v.data), DataField(v.data, off, live)), live, VkOff(v, off));
    if |v.data| > 4 {
      var data := Cell(off, CellWithSign(v.data, live));
      assert ValueCells(v, off, live) == [data] + [vk];
      TiledConcat([data], [vk], off, VkOff(v, off), off + ValueSize(v));
    } else {
      assert ValueCells(v, off, live) == [vk];
    }
  }

  lemma {:induction false} ValuesTiled(vs: seq<ValueSpec>, off: nat, live: bool)
    ensures Tiled(ValuesCells(vs, off, live), off, off + ValuesSize(vs))
    ensures AllFramed(ValuesCells(vs, off, live), live)
  {
    hide ValueCells, ValueSize, Framed;
    if vs != [] {
      ValueTiled(vs[0], off, live);
      ValuesTiled(vs[1..], off + ValueSize(vs[0]), live);
      TiledConcat(ValueCells(vs[0], off, live), ValuesCells(vs[1..], off + ValueSize(vs[0]), live),
                  off, off + ValueSize(vs[0]), off + ValuesSize(vs));
    }
  }

  lemma ListTiled(vs: seq<ValueSpec>, off: nat, listOff: nat, live: bool)
    ensures Tiled(ListCells(vs, off, listOff, live), listOff, listOff + ListSize(|vs|))
    ensures AllFramed(ListCells(vs, off, listOff, live), live)
  {
    hide CellWithSign, ListPayload, CellSize, Framed;
    FramedCell(ListPayload(VkOffsets(vs, off)), live, listOff);
  }

  lemma LfTiled(keys: seq<KeySpec>, off: nat, lfOff: nat)
    ensures Tiled(LfCells(keys, off, lfOff), lfOff, lfOff + LfSize(|keys|))
    ensures AllFramed(LfCells(keys, off, lfOff), true)
  {
    hide CellWithSign, LfPayload, CellSize, Framed;
    FramedCell(LfPayload(keys, off), true, lfOff);
  }

  lemma NkTiled(key: KeySpec, l: NkLinks, off: nat, live: bool)
    ensures Tiled([Cell(off, CellWithSign(NkPayload(key, l), live))], off, off + NkSize(key))
    ensures Framed(Cell(off, CellWithSign(NkPayload(key, l), live)), live)
  {
    FramedCell(NkPayload(key, l), live, off);
  }

  lemma BodyTiled(key: KeySpec, off: nat)
    ensures Tiled(BodyCells(key, off), off + NkSize(key), SubOff(key, off))
    ensures AllFramed(BodyCells(key, off), true)
  {
    hide Tiled, Framed, ValuesCells, ListCells, ValuesSize, ListSize, NkSize;
    var from, mid := off + NkSize(key), ListOff(key, off);
    ValuesTiled(key.values, from, true);
    ListTiled(key.values, from, mid, true);
    TiledConcat(ValuesCells(key.values, from, true), ListCells(key.values, from, mid, true), from, mid,
                SubOff(key, off));
  }

  /** A key's subtree tiles exactly its `KeySize`, and every one of its cells is allocated. */
  lemma {:induction false} KeyTiled(key: KeySpec, off: nat, parent: nat, isRoot: bool)
    ensures Tiled(KeyCells(key, off, parent, isRoot), off, off + KeySize(key))
    ensures AllFramed(KeyCells(key, off, parent, isRoot), true)
    decreases key, 1
  {
    hide Tiled, Framed, CellWithSign, NkPayload, BodyCells, KeysCells, LfCells, NkSize, ValuesSize, ListSize, LfSize,
         KeysSize;
    var nk, body := NkCell(key, off, parent, isRoot), BodyCells(key, off);
    var subs := KeysCells(key.subkeys, SubOff(key, off), off);
    var lf := LfCells(key.subkeys, SubOff(key, off), LfOff(key, off));
    NkTiled(key, KeyLinks(key, off, parent, isRoot), off, true);
    BodyTiled(key, off);
    KeysTiled(key.subkeys, SubOff(key, off), off);
    LfTiled(key.subkeys, SubOff(key, off), LfOff(key, off));
    var end := off + KeySize(key);
    TiledConcat([nk], body, off, off + NkSize(key), SubOff(key, off));
    TiledConcat([nk] + body, subs, off, SubOff(key, off), LfOff(key, off));
    TiledConcat([nk] + body + subs, lf, off, LfOff(key, off), end);
  }

  lemma {:induction false} KeysTiled(keys: seq<KeySpec>, off: nat, parent: nat)
    ensures Tiled(KeysCells(keys, off, parent), off, off + KeysSize(keys))
    ensures AllFramed(KeysCells(keys, off, parent), true)
    decreases keys, 0
  {
    hide Framed, KeyCells, KeySize;
    if keys != [] {
      var mid := off + KeySize(keys[0]);
      KeyTiled(keys[0], off, parent, false);
      KeysTiled(keys[1..], mid, parent);
      TiledConcat(KeyCells(keys[0], off, parent, false), KeysCells(keys[1..], mid, parent), off, mid,
                  off + KeysSize(keys));
    }
  }

  lemma OrphanTiled(key: KeySpec, off: nat)
    ensures Tiled(OrphanCells(key, off), off, off + OrphanSize(key))
    ensures AllFramed(OrphanCells(key, off), false)
  {
    hide Tiled, Framed, ValuesCells, ListCells, CellWithSign, NkPayload, ValuesSize, ListSize, NkSize;
    var list, nk := off + ValuesSize(key.values), OrphanNkOff(key, off);
    ValuesTiled(key.values, off, false);
    ListTiled(key.values, off, list, false);
    NkTiled(key, OrphanLinks(key, off), nk, false);
    TiledConcat(ValuesCells(key.values, off, false), ListCells(key.values, off, list, false), off, list, nk);
    TiledConcat(ValuesCells(key.values, off, false) + ListCells(key.values, off, list, false),
                [OrphanNkCell(key, off)], off, nk, off + OrphanSize(key));
  }

  lemma {:induction false} OrphansTiled(keys: seq<KeySpec>, off: nat)
    ensures Tiled(OrphansCells(keys, off), off, off + OrphansSize(keys))
    ensures AllFramed(OrphansCells(keys, off), false)
  {
    hide Framed, OrphanCells, OrphanSize;
    if keys != [] {
      var mid := off + OrphanSize(keys[0]);
      OrphanTiled(keys[0], off);
      OrphansTiled(keys[1..], mid);
      TiledConcat(OrphanCells(keys[0], off), OrphansCells(keys[1..], mid), off, mid, off + OrphansSize(keys));
    }
  }

  /** Every reservation is filled exactly once: placement order permutes address order. */
  lemma {:induction false} PlacedArePermuted(key: KeySpec, off: nat, parent: nat, isRoot: bool)
    ensures multiset(KeyPlaced(key, off, parent, isRoot)) == multiset(KeyCells(key, off, parent, isRoot))
    decreases key, 1
  {
    hide NkCell, BodyCells, KeysCells, KeysPlaced, LfCells, SubOff, LfOff;
    KeysPlacedArePermuted(key.subkeys, SubOff(key, off), off);
  }

  lemma {:induction false} KeysPlacedArePermuted(keys: seq<KeySpec>, off: nat, parent: nat)
    ensures multiset(KeysPlaced(keys, off, parent)) == multiset(KeysCells(keys, off, parent))
    decreases keys, 0
  {
    hide KeyCells, KeyPlaced, KeySize;
    if keys != [] {
      PlacedArePermuted(keys[0], off, parent, false);
      KeysPlacedArePermuted(keys[1..], off + KeySize(keys[0]), parent);
    }
  }

  /** In placement order the cells are still pairwise disjoint. */
  lemma {:induction false} PlacedApart(key: KeySpec, off: nat, parent: nat, isRoot: bool)
    ensures PairwiseApart(KeyPlaced(key, off, parent, isRoot))
    ensures Within(KeyPlaced(key, off, parent, isRoot), off, off + KeySize(key))
    decreases key, 1
  {
    hide PairwiseApart, Within, Tiled, CellWithSign, NkPayload, BodyCells, KeysPlaced, LfCells, NkSize, ValuesSize,
         ListSize, LfSize, KeysSize;
    var nk, body := NkCell(key, off, parent, isRoot), BodyCells(key, off);
    var subs := KeysPlaced(key.subkeys, SubOff(key, off), off);
    var lf := LfCells(key.subkeys, SubOff(key, off), LfOff(key, off));
    var nkEnd, end := off + NkSize(key), off + KeySize(key);
    NkTiled(key, KeyLinks(key, off, parent, isRoot), off, true);
    TiledWithin([nk], off, nkEnd);
    TiledApart([nk], off, nkEnd);
    BodyTiled(key, off);
    TiledApart(body, nkEnd, SubOff(key, off));
    TiledWithin(body, nkEnd, SubOff(key, off));
    KeysPlacedApart(key.subkeys, SubOff(key, off), off);
    LfTiled(key.subkeys, SubOff(key, off), LfOff(key, off));
    TiledApart(lf, LfOff(key, off), end);
    TiledWithin(lf, LfOff(key, off), end);
    ApartConcat(body, subs, nkEnd, SubOff(key, off), LfOff(key, off));
    ApartConcat(body + subs, lf, nkEnd, LfOff(key, off), end);
    ApartConcat(body + subs + lf, [nk], off, nkEnd, end);
  }

  lemma {:induction false} KeysPlacedApart(keys: seq<KeySpec>, off: nat, parent: nat)
    ensures PairwiseApart(KeysPlaced(keys, off, parent))
    ensures Within(KeysPlaced(keys, off, parent), off, off + KeysSize(keys))
    decreases keys, 0
  {
    hide Apart, Within, KeyPlaced, KeySize;
    WithinNone(off);
    if keys != [] {
      var mid := off + KeySize(keys[0]);
      PlacedApart(keys[0], off, parent, false);
      KeysPlacedApart(keys[1..], mid, parent);
      ApartConcat(KeyPlaced(keys[0], off, parent, false), KeysPlaced(keys[1..], mid, parent), off, mid,
                  off + KeysSize(keys));
    }
  }
}
