/** Cohen-Sutherland clipping of a line segment against the window
    `[0, width - 1] x [0, height - 1]` of a surface, with the integer (C#
    truncating) interpolation the surface's `Line` uses.

    `Clip` is the specification: the clip loop written as a recursive
    function, whose termination is proved (each round either leaves the two
    endpoints sharing an outside region, so the next round rejects, or clears
    at least one region bit).  `ClipSegment` is the loop itself. */
module Clipping {
  import opened CSharpInt
  import opened Pixels

  /** Region code of `(x, y)`: bit 1 left of the window, bit 2 right of it,
      bit 4 above it, bit 8 below it.  The source returns an `int`; only these
      four bits ever occur, so it is a 4-bit vector here and `&` is the
      source's bitwise and. */
  function Outcode(width: int, height: int, x: int, y: int): (r: bv4)
    ensures r == 0 <==> InWindow(width, height, x, y)
    ensures (r & 1) != 0 <==> x < 0
    ensures (r & 2) != 0 <==> 0 <= x && width - 1 < x
    ensures (r & 4) != 0 <==> y < 0
    ensures (r & 8) != 0 <==> 0 <= y && height - 1 < y
    ensures (r & 3) != 3 && (r & 12) != 12 && r <= 10
  {
    var xmin, ymin, xmax, ymax := 0, 0, width - 1, height - 1;
    (if x < xmin then 1 else if x > xmax then 2 else 0)
    + (if y < ymin then 4 else if y > ymax then 8 else 0)
  }

  /** Number of region bits set in a code. */
  function Pop(c: bv4): nat
  {
    (if (c & 1) != 0 then 1 else 0) + (if (c & 2) != 0 then 1 else 0)
    + (if (c & 4) != 0 then 1 else 0) + (if (c & 8) != 0 then 1 else 0)
  }

  /** `v` lies between `a` and `b` (in either order). */
  predicate Between(v: int, a: int, b: int)
  {
    (a <= v <= b) || (b <= v <= a)
  }

  datatype Clipped = Rejected | Accepted(x1: int, y1: int, x2: int, y2: int)

  /** The endpoints still need work: they are not both inside and do not
      share an outside region. */
  predicate Pending(width: int, height: int, x1: int, y1: int, x2: int, y2: int)
  {
    var c0, c1 := Outcode(width, height, x1, y1), Outcode(width, height, x2, y2);
    !(c0 == 0 && c1 == 0) && (c0 & c1) == 0
  }

  /** The code of the endpoint a round of the clip loop moves: the first
      endpoint's if it is outside, otherwise the second's. */
  function Chosen(width: int, height: int, x1: int, y1: int, x2: int, y2: int): bv4
  {
    var c0 := Outcode(width, height, x1, y1);
    if c0 > 0 then c0 else Outcode(width, height, x2, y2)
  }

  /** Where a round of the clip loop moves the chosen endpoint: onto the
      window edge named by its highest region bit, the other coordinate
      interpolated from the first endpoint with truncating division. */
  function EdgePoint(width: int, height: int, x1: int, y1: int, x2: int, y2: int): (int, int)
    requires 0 <= width && 0 <= height
    requires Pending(width, height, x1, y1, x2, y2)
  {
    var xmin, ymin, xmax, ymax := 0, 0, width - 1, height - 1;
    var co := Chosen(width, height, x1, y1, x2, y2);
    ClipDivisorsNonZero(width, height, x1, y1, x2, y2);
    if (co & 8) > 0 then (x1 + Quot((x2 - x1) * (ymax - y1), y2 - y1), ymax)
    else if (co & 4) > 0 then (x1 + Quot((x2 - x1) * (ymin - y1), y2 - y1), ymin)
    else if (co & 2) > 0 then (xmax, y1 + Quot((y2 - y1) * (xmax - x1), x2 - x1))
    else if (co & 1) > 0 then (xmin, y1 + Quot((y2 - y1) * (xmin - x1), x2 - x1))
    else (0, 0)  // no region bit: cannot happen, as the source's initial x = 0, y = 0
  }

  /** One round of the clip loop: the chosen endpoint replaced by its edge point. */
  function ClipStep(width: int, height: int, x1: int, y1: int, x2: int, y2: int): (int, int, int, int)
    requires 0 <= width && 0 <= height
    requires Pending(width, height, x1, y1, x2, y2)
  {
    var p := EdgePoint(width, height, x1, y1, x2, y2);
    if Chosen(width, height, x1, y1, x2, y2) == Outcode(width, height, x1, y1) then
      (p.0, p.1, x2, y2)
    else
      (x1, y1, p.0, p.1)
  }

  /** The ranking of a state of the clip loop: first whether the endpoints
      share an outside region (then the next round rejects), then the number
      of region bits left. */
  function Shared(width: int, height: int, x1: int, y1: int, x2: int, y2: int): nat
  {
    if (Outcode(width, height, x1, y1) & Outcode(width, height, x2, y2)) != 0 then 0 else 1
  }

  function Bits(width: int, height: int, x1: int, y1: int, x2: int, y2: int): nat
  {
    Pop(Outcode(width, height, x1, y1)) + Pop(Outcode(width, height, x2, y2))
  }

  /** The divisors of a clip round are never zero: every region bit of the
      chosen endpoint is one the other endpoint lacks, so on that axis the
      two endpoints lie on different sides of the window edge. */
  lemma ClipDivisorsNonZero(width: int, height: int, x1: int, y1: int, x2: int, y2: int)
    requires 0 <= width && 0 <= height
    requires Pending(width, height, x1, y1, x2, y2)
    ensures var co := Chosen(width, height, x1, y1, x2, y2);
      && co != 0
      && ((co & 8) > 0 || (co & 4) > 0 ==> y2 - y1 != 0)
      && ((co & 2) > 0 || (co & 1) > 0 ==> x2 - x1 != 0)
  {
  }

  /** The edge point lies in the bounding box of the two endpoints. */
  lemma EdgePointBetween(width: int, height: int, x1: int, y1: int, x2: int, y2: int)
    requires 0 <= width && 0 <= height
    requires Pending(width, height, x1, y1, x2, y2)
    ensures var p := EdgePoint(width, height, x1, y1, x2, y2);
      Between(p.0, x1, x2) && Between(p.1, y1, y2)
  {
    var xmin, ymin, xmax, ymax := 0, 0, width - 1, height - 1;
    var co := Chosen(width, height, x1, y1, x2, y2);
    ClipDivisorsNonZero(width, height, x1, y1, x2, y2);
    if (co & 8) > 0 {
      QuotScaleBetween(x2 - x1, ymax - y1, y2 - y1);
    } else if (co & 4) > 0 {
      QuotScaleBetween(x2 - x1, ymin - y1, y2 - y1);
    } else if (co & 2) > 0 {
      QuotScaleBetween(y2 - y1, xmax - x1, x2 - x1);
    } else {
      QuotScaleBetween(y2 - y1, xmin - x1, x2 - x1);
    }
  }

  /** The edge point lies on the line through the two endpoints, up to the
      truncation of one division: on a horizontal edge its x coordinate, on
      a vertical edge its y coordinate, is off the exact crossing by less
      than one unit, i.e. the cross product of its offset with the segment
      is smaller than the divisor. */
  lemma EdgePointOnLine(width: int, height: int, x1: int, y1: int, x2: int, y2: int)
    requires 0 <= width && 0 <= height
    requires Pending(width, height, x1, y1, x2, y2)
    ensures var p := EdgePoint(width, height, x1, y1, x2, y2);
      var co := Chosen(width, height, x1, y1, x2, y2);
      && ((co & 8) > 0 || (co & 4) > 0 ==>
            Abs((p.0 - x1) * (y2 - y1) - (p.1 - y1) * (x2 - x1)) < Abs(y2 - y1))
      && ((co & 8) == 0 && (co & 4) == 0 ==>
            Abs((p.1 - y1) * (x2 - x1) - (p.0 - x1) * (y2 - y1)) < Abs(x2 - x1))
  {
    var xmin, ymin, xmax, ymax := 0, 0, width - 1, height - 1;
    var co := Chosen(width, height, x1, y1, x2, y2);
    ClipDivisorsNonZero(width, height, x1, y1, x2, y2);
    if (co & 8) > 0 {
      CrossingOnLine(x1, y1, x2, y2, ymax);
    } else if (co & 4) > 0 {
      CrossingOnLine(x1, y1, x2, y2, ymin);
    } else if (co & 2) > 0 {
      CrossingOnLine(y1, x1, y2, x2, xmax);
    } else {
      CrossingOnLine(y1, x1, y2, x2, xmin);
    }
  }

  /** Where the line from (u1, v1) to (u2, v2) crosses v == e, the truncated
      u coordinate is off the exact crossing by less than one unit. */
  lemma CrossingOnLine(u1: int, v1: int, u2: int, v2: int, e: int)
    requires v1 != v2
    ensures Abs((u1 + Quot((u2 - u1) * (e - v1), v2 - v1) - u1) * (v2 - v1) - (e - v1) * (u2 - u1))
            < Abs(v2 - v1)
  {
    QuotRemainder((u2 - u1) * (e - v1), v2 - v1);
    assert (e - v1) * (u2 - u1) == (u2 - u1) * (e - v1);
  }

  /** The edge point's region bits are bits the two endpoints already had,
      and it has left the region the round clipped against. */
  lemma EdgePointCode(width: int, height: int, x1: int, y1: int, x2: int, y2: int)
    requires 0 <= width && 0 <= height
    requires Pending(width, height, x1, y1, x2, y2)
    ensures var p := EdgePoint(width, height, x1, y1, x2, y2);
      var n := Outcode(width, height, p.0, p.1);
      var c0, c1 := Outcode(width, height, x1, y1), Outcode(width, height, x2, y2);
      var co := Chosen(width, height, x1, y1, x2, y2);
      && (n & !(c0 | c1)) == 0
      && (n & co) != co
  {
    EdgePointBetween(width, height, x1, y1, x2, y2);
  }

  /** Dropping a bit of one of two disjoint codes, and gaining only bits of
      the two, either shares a bit with the other code or lowers the count. */
  lemma PopShrinks(c: bv4, other: bv4, n: bv4)
    requires (c & other) == 0 && (n & !(c | other)) == 0 && (n & c) != c
    ensures (n & other) != 0 || Pop(n) < Pop(c)
  {
  }

  /** A round of the clip loop keeps both endpoints inside the bounding box
      of the segment, and makes progress: the endpoints now share an outside
      region, or fewer region bits are left. */
  lemma ClipStepProgress(width: int, height: int, x1: int, y1: int, x2: int, y2: int)
    requires 0 <= width && 0 <= height
    requires Pending(width, height, x1, y1, x2, y2)
    ensures var (a, b, c, d) := ClipStep(width, height, x1, y1, x2, y2);
      && Between(a, x1, x2) && Between(c, x1, x2) && Between(b, y1, y2) && Between(d, y1, y2)
      && (Shared(width, height, a, b, c, d) == 0
          || Bits(width, height, a, b, c, d) < Bits(width, height, x1, y1, x2, y2))
  {
    var p := EdgePoint(width, height, x1, y1, x2, y2);
    var n := Outcode(width, height, p.0, p.1);
    var c0, c1 := Outcode(width, height, x1, y1), Outcode(width, height, x2, y2);
    EdgePointBetween(width, height, x1, y1, x2, y2);
    EdgePointCode(width, height, x1, y1, x2, y2);
    if Chosen(width, height, x1, y1, x2, y2) == c0 {
      PopShrinks(c0, c1, n);
      assert (n & c1) == (c1 & n);
    } else {
      PopShrinks(c1, c0, n);
    }
  }

  /** The clipped segment, or `Rejected` when the clip loop gives up.
      Accepted endpoints lie in the window and inside the bounding box of
      the original segment; a segment inside the window is accepted as it
      is; endpoints sharing an outside region are rejected at once. */
  function Clip(width: int, height: int, x1: int, y1: int, x2: int, y2: int): (r: Clipped)
    requires 0 <= width && 0 <= height
    ensures r.Accepted? ==> InWindow(width, height, r.x1, r.y1) && InWindow(width, height, r.x2, r.y2)
    ensures r.Accepted? ==>
      && Between(r.x1, x1, x2) && Between(r.x2, x1, x2)
      && Between(r.y1, y1, y2) && Between(r.y2, y1, y2)
    ensures InWindow(width, height, x1, y1) && InWindow(width, height, x2, y2) ==>
      r == Accepted(x1, y1, x2, y2)
    ensures (Outcode(width, height, x1, y1) & Outcode(width, height, x2, y2)) != 0 ==> r == Rejected
    decreases Shared(width, height, x1, y1, x2, y2), Bits(width, height, x1, y1, x2, y2)
  {
    var c0, c1 := Outcode(width, height, x1, y1), Outcode(width, height, x2, y2);
    if c0 == 0 && c1 == 0 then
      Accepted(x1, y1, x2, y2)
    else if (c0 & c1) > 0 then
      Rejected
    else
      ClipStepProgress(width, height, x1, y1, x2, y2);
      var (a, b, c, d) := ClipStep(width, height, x1, y1, x2, y2);
      Clip(width, height, a, b, c, d)
  }

  /** The clip loop of `Line`: the endpoints and their region codes are
      local variables updated round by round, as in the source; the
      arithmetic of a round is `EdgePoint`. */
  method ClipSegment(width: int, height: int, x1: int, y1: int, x2: int, y2: int) returns (r: Clipped)
    requires 0 <= width && 0 <= height
    ensures r == Clip(width, height, x1, y1, x2, y2)
  {
    var cx1, cy1, cx2, cy2 := x1, y1, x2, y2;
    var c0, c1 := Outcode(width, height, cx1, cy1), Outcode(width, height, cx2, cy2);
    var accept := false;
    while true
      invariant c0 == Outcode(width, height, cx1, cy1) && c1 == Outcode(width, height, cx2, cy2)
      invariant Clip(width, height, cx1, cy1, cx2, cy2) == Clip(width, height, x1, y1, x2, y2)
      decreases Shared(width, height, cx1, cy1, cx2, cy2), Bits(width, height, cx1, cy1, cx2, cy2)
    {
      if c0 == 0 && c1 == 0 {
        accept := true;
        break;
      } else if (c0 & c1) > 0 {
        break;
      } else {
        ghost var next := ClipStep(width, height, cx1, cy1, cx2, cy2);
        ClipStepProgress(width, height, cx1, cy1, cx2, cy2);
        assert Clip(width, height, next.0, next.1, next.2, next.3) == Clip(width, height, cx1, cy1, cx2, cy2);
        var co := if c0 > 0 then c0 else c1;
        var (x, y) := EdgePoint(width, height, cx1, cy1, cx2, cy2);
        if co == c0 {
          cx1, cy1 := x, y;
          c0 := Outcode(width, height, cx1, cy1);
        } else {
          cx2, cy2 := x, y;
          c1 := Outcode(width, height, cx2, cy2);
        }
        assert (cx1, cy1, cx2, cy2) == next;
      }
    }
    r := if accept then Accepted(cx1, cy1, cx2, cy2) else Rejected;
  }
}
