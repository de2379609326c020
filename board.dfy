/** The board as a value: which occupant each cell (gridX, gridY) holds.
    Both grid managers exchange two cells the same way; this module states
    that exchange once and proves what it promises. */
module Board {

  datatype Pos = Pos(x: int, y: int)

  predicate InBounds(p: Pos, width: int, height: int) {
    0 <= p.x < width && 0 <= p.y < height
  }

  /** Distinct cells hold distinct occupants. */
  ghost predicate Injective<T>(b: map<Pos, T>) {
    forall p, q :: p in b && q in b && p != q ==> b[p] != b[q]
  }

  /** Exchange the occupants of cells p and q. */
  function Swap<T>(b: map<Pos, T>, p: Pos, q: Pos): (r: map<Pos, T>)
    requires p in b && q in b
    ensures r.Keys == b.Keys
    ensures r[p] == b[q] && r[q] == b[p]
    ensures forall k :: k in b && k != p && k != q ==> r[k] == b[k]
  {
    b[p := b[q]][q := b[p]]
  }

  /** Swapping the same two cells again restores the board. */
  lemma SwapInvolutive<T>(b: map<Pos, T>, p: Pos, q: Pos)
    requires p in b && q in b
    ensures Swap(Swap(b, p, q), p, q) == b
  {
    var r := Swap(Swap(b, p, q), p, q);
    assert r.Keys == b.Keys;
    forall k | k in b ensures r[k] == b[k] {
      if k == p || k == q { }
    }
  }

  /** The order in which the two cells are named does not matter. */
  lemma SwapSymmetric<T>(b: map<Pos, T>, p: Pos, q: Pos)
    requires p in b && q in b
    ensures Swap(b, p, q) == Swap(b, q, p)
  {
    var r, s := Swap(b, p, q), Swap(b, q, p);
    forall k | k in b ensures r[k] == s[k] { }
  }

  /** A swap is a permutation of the board: the same occupants are on it
      afterwards, and an injective board stays injective. */
  lemma SwapPermutes<T>(b: map<Pos, T>, p: Pos, q: Pos)
    requires p in b && q in b
    ensures Swap(b, p, q).Values == b.Values
    ensures Injective(b) ==> Injective(Swap(b, p, q))
  {
    var r := Swap(b, p, q);
    forall v | v in b.Values ensures v in r.Values {
      var k :| k in b && b[k] == v;
      if k == p { assert r[q] == v; } else if k == q { assert r[p] == v; } else { assert r[k] == v; }
    }
    forall v | v in r.Values ensures v in b.Values {
      var k :| k in r && r[k] == v;
      if k == p { assert b[q] == v; } else if k == q { assert b[p] == v; } else { assert b[k] == v; }
    }
  }

  /** The contents of a 2-D array as a board value. */
  ghost function Cells<T>(g: array2<T>): map<Pos, T>
    reads g
  {
    map x, y | 0 <= x < g.Length0 && 0 <= y < g.Length1 :: Pos(x, y) := g[x, y]
  }

  /** Store a in slot p, then b in slot q; every other slot keeps its
      content. As a board value, this updates p and then q. */
  method StoreTwo<T>(g: array2<T>, p: Pos, a: T, q: Pos, b: T)
    requires InBounds(p, g.Length0, g.Length1) && InBounds(q, g.Length0, g.Length1)
    modifies g
    ensures Cells(g) == old(Cells(g))[p := a][q := b]
    ensures g[q.x, q.y] == b && (p != q ==> g[p.x, p.y] == a)
    ensures forall x, y :: 0 <= x < g.Length0 && 0 <= y < g.Length1 && Pos(x, y) != p && Pos(x, y) != q ==>
      g[x, y] == old(g[x, y])
  {
    ghost var before := Cells(g);
    g[p.x, p.y] := a;
    g[q.x, q.y] := b;
    ghost var after := before[p := a][q := b];
    forall k | k in after ensures k in Cells(g) && Cells(g)[k] == after[k] {
    }
  }
}
