/**
 * Positions, distances and the two axis-aligned box tests: `checkCollision`
 * between two player squares (server.js) and `checkTreeCollision` between a
 * player square and the trees of the dirt patches (gameLogic.js).
 */
module Geometry {
  import opened Constants

  datatype Pos = Pos(x: real, y: real)

  /** Squared Euclidean distance. The source compares `Math.sqrt(d2)` with 20;
      over non-negative reals that is the same as comparing `d2` with 400. */
  function DistSq(a: Pos, b: Pos): real
  {
    (a.x - b.x) * (a.x - b.x) + (a.y - b.y) * (a.y - b.y)
  }

  /** A bite or a bullet hit: strictly closer than CONTACT_RANGE. */
  predicate InContact(a: Pos, b: Pos)
  {
    DistSq(a, b) < CONTACT_RANGE * CONTACT_RANGE
  }

  /** A point lies strictly inside the square with top-left corner (x, y). */
  ghost predicate Inside(px: real, py: real, x: real, y: real, size: real)
  {
    x < px < x + size && y < py < y + size
  }

  /** `checkCollision`: two squares overlap, strictly on both axes. */
  predicate CheckCollision(x1: real, y1: real, size1: real, x2: real, y2: real, size2: real)
  {
    x1 < x2 + size2 && x1 + size1 > x2 && y1 < y2 + size2 && y1 + size1 > y2
  }

  function Max(a: real, b: real): real { if a < b then b else a }
  function Min(a: real, b: real): real { if a < b then a else b }

  /** The box test means what it should: two squares of positive size collide
      exactly when some point lies strictly inside both. */
  lemma CollisionIffCommonPoint(x1: real, y1: real, size1: real, x2: real, y2: real, size2: real)
    requires size1 > 0.0 && size2 > 0.0
    ensures CheckCollision(x1, y1, size1, x2, y2, size2)
        <==> exists px, py :: Inside(px, py, x1, y1, size1) && Inside(px, py, x2, y2, size2)
  {
    if CheckCollision(x1, y1, size1, x2, y2, size2) {
      var px := (Max(x1, x2) + Min(x1 + size1, x2 + size2)) / 2.0;
      var py := (Max(y1, y2) + Min(y1 + size1, y2 + size2)) / 2.0;
      assert Inside(px, py, x1, y1, size1) && Inside(px, py, x2, y2, size2);
    }
  }

  /** A dirt patch; its tree is a TREE_COLLISION_SIZE square centred in it. */
  datatype Patch = Patch(x: real, y: real, width: real, height: real)
  {
    function TreeX(): real { x + width / 2.0 - TREE_COLLISION_SIZE / 2.0 }
    function TreeY(): real { y + height / 2.0 - TREE_COLLISION_SIZE / 2.0 }
  }

  /** The player square at (px, py) overlaps the tree of `patch`. */
  predicate TreeBlocks(px: real, py: real, size: real, patch: Patch)
  {
    CheckCollision(px, py, size, patch.TreeX(), patch.TreeY(), TREE_COLLISION_SIZE)
  }

  /** `checkTreeCollision`: scans the patches in order and reports the first
      tree the player square overlaps. */
  function CheckTreeCollision(px: real, py: real, size: real, patches: seq<Patch>): (r: bool)
    ensures r <==> exists i :: 0 <= i < |patches| && TreeBlocks(px, py, size, patches[i])
    ensures |patches| == 0 ==> !r
  {
    if |patches| == 0 then false
    else if TreeBlocks(px, py, size, patches[0]) then true
    else
      var rest := CheckTreeCollision(px, py, size, patches[1..]);
      assert rest ==> exists i :: 0 <= i < |patches| && TreeBlocks(px, py, size, patches[i]) by {
        if rest {
          var i :| 0 <= i < |patches[1..]| && TreeBlocks(px, py, size, patches[1..][i]);
          assert patches[1..][i] == patches[i + 1];
        }
      }
      assert !rest ==> forall i :: 0 <= i < |patches| ==> !TreeBlocks(px, py, size, patches[i]) by {
        if !rest {
          forall i | 0 <= i < |patches| ensures !TreeBlocks(px, py, size, patches[i]) {
            if i > 0 { assert patches[i] == patches[1..][i - 1]; }
          }
        }
      }
      rest
  }

  /** The two cases of the combat tests: a tree inside the player square is a
      collision, a tree far away is not. */
  lemma TreeCollisionExamples()
    ensures CheckTreeCollision(100.0, 100.0, 50.0, [Patch(80.0, 80.0, 40.0, 40.0)])
    ensures !CheckTreeCollision(100.0, 100.0, 50.0, [Patch(500.0, 500.0, 40.0, 40.0)])
  {
    assert TreeBlocks(100.0, 100.0, 50.0, Patch(80.0, 80.0, 40.0, 40.0));
    assert !TreeBlocks(100.0, 100.0, 50.0, Patch(500.0, 500.0, 40.0, 40.0));
  }
}
