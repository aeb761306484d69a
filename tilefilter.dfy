/**
 * Which tiles a cell may take, given the ids of its four neighbours.
 *
 * This is the value-level part of the possibility computation: the grid
 * supplies the four neighbour ids (0 for an unresolved or off-grid neighbour)
 * and the tiles are filtered in ascending id order.
 */
module TileFilter {
  import opened TileSet

  /**
   * Tile `t` fits neighbours `ns` when every resolved neighbour is accepted by
   * `t`'s own rule row; unresolved neighbours (id 0) impose nothing.
   */
  predicate Fits(t: TileId, ns: seq<CellId>)
  {
    forall j | 0 <= j < |ns| :: ns[j] == 0 || Allows(t, ns[j])
  }

  /** The tiles 1..n that fit `ns`, in ascending order. */
  function CandidatesUpTo(ns: seq<CellId>, n: nat): (r: seq<nat>)
    requires n <= NUM_TILES
    ensures |r| <= n
    ensures forall j | 0 <= j < |r| :: 1 <= r[j] <= n
    decreases n
  {
    if n == 0 then []
    else CandidatesUpTo(ns, n - 1) + (if Fits(n, ns) then [n] else [])
  }

  /** One more tile considered: it is appended exactly when it fits. */
  lemma CandidatesUpToStep(ns: seq<CellId>, n: nat)
    requires n < NUM_TILES
    ensures CandidatesUpTo(ns, n + 1) == CandidatesUpTo(ns, n) + (if Fits(n + 1, ns) then [n + 1] else [])
  {
  }

  /** The candidates come out strictly ascending, so without repetition. */
  lemma {:induction false} CandidatesUpToAscending(ns: seq<CellId>, n: nat)
    requires n <= NUM_TILES
    ensures var r := CandidatesUpTo(ns, n);
            forall j, k | 0 <= j < k < |r| :: r[j] < r[k]
  {
    if n > 0 {
      CandidatesUpToAscending(ns, n - 1);
    }
  }

  /** All tiles that fit `ns`, in ascending order. */
  function Candidates(ns: seq<CellId>): seq<nat>
  {
    CandidatesUpTo(ns, NUM_TILES)
  }

  /** A tile is among the first n candidates exactly when its id is at most n and it fits. */
  lemma {:induction false} CandidatesUpToMembership(ns: seq<CellId>, n: nat, t: nat)
    requires n <= NUM_TILES
    ensures t in CandidatesUpTo(ns, n) <==> 1 <= t <= n && Fits(t, ns)
  {
    if n > 0 {
      CandidatesUpToMembership(ns, n - 1, t);
      var prev := CandidatesUpTo(ns, n - 1);
      var last: seq<nat> := if Fits(n, ns) then [n] else [];
      assert CandidatesUpTo(ns, n) == prev + last;
      assert t in prev + last <==> t in prev || t in last;
    }
  }

  /** A tile is a candidate exactly when it fits the neighbours. */
  lemma CandidatesMembership(ns: seq<CellId>, t: nat)
    ensures t in Candidates(ns) <==> 1 <= t <= NUM_TILES && Fits(t, ns)
  {
    CandidatesUpToMembership(ns, NUM_TILES, t);
  }

  /** Two neighbouring ids are compatible when either is unresolved or one of the two tiles accepts the other. */
  predicate Compatible(a: CellId, b: CellId)
  {
    a == 0 || b == 0 || Allows(a, b) || Allows(b, a)
  }

  /** A cell with no resolved neighbour may take any tile. */
  lemma UnconstrainedAdmitsAll(ns: seq<CellId>)
    requires forall j | 0 <= j < |ns| :: ns[j] == 0
    ensures Candidates(ns) == [1, 2, 3, 4, 5]
  {
    UnconstrainedUpTo(ns, NUM_TILES);
  }

  /** With no resolved neighbour, the tiles 1..n are all candidates. */
  lemma {:induction false} UnconstrainedUpTo(ns: seq<CellId>, n: nat)
    requires n <= NUM_TILES
    requires forall j | 0 <= j < |ns| :: ns[j] == 0
    ensures CandidatesUpTo(ns, n) == seq(n, i => i + 1)
  {
    if n > 0 {
      UnconstrainedUpTo(ns, n - 1);
      assert Fits(n, ns);
      assert CandidatesUpTo(ns, n) == CandidatesUpTo(ns, n - 1) + [n];
      assert seq(n, i => i + 1) == seq(n - 1, i => i + 1) + [n];
    }
  }

  /** A tile that fits some neighbours still fits when it learns less about them. */
  lemma {:induction false} FitsForgetting(t: TileId, ns: seq<CellId>, ms: seq<CellId>)
    requires |ns| == |ms|
    requires forall j | 0 <= j < |ns| :: ns[j] == 0 || ns[j] == ms[j]
    requires Fits(t, ms)
    ensures Fits(t, ns)
  {
    forall j | 0 <= j < |ns| ensures ns[j] == 0 || Allows(t, ns[j]) {
      if ns[j] != 0 {
        assert ms[j] == ns[j];
      }
    }
  }

  /**
   * The check is one-directional: with a sand tile (2) as the left neighbour,
   * water (1) is a candidate although sand's own rule rejects water, so a
   * committed pair need not be accepted from both sides.
   */
  lemma OneSidedCheck()
    ensures Candidates([0, 0, 0, 2]) == [1, 3]
    ensures !Allows(2, 1) && Allows(1, 2)
  {
    var ns: seq<CellId> := [0, 0, 0, 2];
    assert ns[3] == 2 && !Allows(2, 2);
    assert !Fits(2, ns);
    assert Fits(1, ns) && Fits(3, ns);
    assert !Allows(4, 2) && !Fits(4, ns);
    assert !Allows(5, 2) && !Fits(5, ns);
    assert CandidatesUpTo(ns, 1) == [1];
    assert CandidatesUpTo(ns, 2) == [1];
    assert CandidatesUpTo(ns, 3) == [1, 3];
    assert CandidatesUpTo(ns, 4) == [1, 3];
  }
}
