/**
 * The integer and rule logic of the runner game in
 * frontend/src/pages/Game.tsx that does not change state: the game's
 * constants, the padded hit boxes and their overlap test, the score
 * formula, the top-five leaderboard and `String.prototype.trim`.
 *
 * Positions and speeds are exact rationals (`real`); the source computes
 * them in IEEE doubles, whose rounding is not modelled.
 */
module GameRules {
  import opened Options

  // ---------------------------------------------------------------- constants

  const Gravity: real := 0.6
  const JumpStrength: real := -12.0
  const InitialSpeed: real := 4.0
  const SpeedIncrement: real := 0.0005
  const GroundHeight: real := 100.0
  const PlayerStartX: real := 100.0
  const AnimationFrameDuration: nat := 8

  const ScaleFactor: real := 2.5
  const PlayerWidth: real := 64.0 * ScaleFactor
  const PlayerHeight: real := 64.0 * ScaleFactor
  const CactusWidth: real := 32.0 * ScaleFactor
  const CactusHeight: real := 48.0 * ScaleFactor
  const CoinSize: real := 32.0 * ScaleFactor
  const PlayerGroundOffset: real := 8.0 * ScaleFactor
  const CactusGroundOffset: real := 0.0

  /** New obstacles wait until the last one is this far left of the right edge. */
  const ObstacleGap: real := 400.0
  /** New coins wait until the last one is this far left of the right edge. */
  const CoinGap: real := 250.0

  // ---------------------------------------------------------------- entities

  datatype Player = Player(x: real, y: real, width: real, height: real, velocityY: real, isJumping: bool)

  datatype Obstacle = Obstacle(x: real, y: real, width: real, height: real)

  datatype Coin = Coin(x: real, y: real, width: real, height: real, collected: bool)

  // ---------------------------------------------------------------- collision

  /** An axis-aligned rectangle: left edge, top edge, width, height. */
  datatype Box = Box(x: real, y: real, width: real, height: real)

  /** The test `checkCollision` and `checkCoinCollision` share: strict overlap on both axes. */
  predicate Overlap(a: Box, b: Box) {
    && a.x < b.x + b.width && a.x + a.width > b.x
    && a.y < b.y + b.height && a.y + a.height > b.y
  }

  /** The point lies strictly inside the box. */
  predicate Inside(px: real, py: real, b: Box) {
    b.x < px < b.x + b.width && b.y < py < b.y + b.height
  }

  predicate Proper(b: Box) {
    b.width > 0.0 && b.height > 0.0
  }

  /** The player's hit box: `pad` in from every side, and the ground offset off the bottom as well. */
  function PlayerHitbox(p: Player, pad: real): (b: Box)
    ensures b.x == p.x + pad && b.y == p.y + pad
    ensures b.x + b.width == p.x + p.width - pad
    ensures b.y + b.height == p.y + p.height - pad - PlayerGroundOffset
  {
    Box(p.x + pad, p.y + pad, p.width - pad * 2.0, p.height - pad * 2.0 - PlayerGroundOffset)
  }

  /** An obstacle's or a coin's hit box: `pad` in from every side. */
  function ItemHitbox(x: real, y: real, width: real, height: real, pad: real): (b: Box)
    ensures b.x == x + pad && b.y == y + pad && b.x + b.width == x + width - pad && b.y + b.height == y + height - pad
  {
    Box(x + pad, y + pad, width - pad * 2.0, height - pad * 2.0)
  }

  /** `checkCollision(player, obstacle)`: the player's box padded by 20, the cactus's by 10. */
  function CheckCollision(p: Player, o: Obstacle): bool {
    Overlap(PlayerHitbox(p, 8.0 * ScaleFactor), ItemHitbox(o.x, o.y, o.width, o.height, 4.0 * ScaleFactor))
  }

  /** `checkCoinCollision(player, coin)`: the player's box padded by 30, the coin's by 10. */
  function CheckCoinCollision(p: Player, c: Coin): bool {
    Overlap(PlayerHitbox(p, 12.0 * ScaleFactor), ItemHitbox(c.x, c.y, c.width, c.height, 4.0 * ScaleFactor))
  }

  /** A player and a cactus collide exactly when some point lies strictly inside both hit boxes. */
  lemma CollisionIffCommonPoint(p: Player, o: Obstacle)
    ensures var pb := PlayerHitbox(p, 8.0 * ScaleFactor);
      var ob := ItemHitbox(o.x, o.y, o.width, o.height, 4.0 * ScaleFactor);
      Proper(pb) && Proper(ob) ==> (CheckCollision(p, o) <==> exists px, py :: Inside(px, py, pb) && Inside(px, py, ob))
  {
    OverlapIffCommonPoint(PlayerHitbox(p, 8.0 * ScaleFactor), ItemHitbox(o.x, o.y, o.width, o.height, 4.0 * ScaleFactor));
  }

  /** A player and a coin collide exactly when some point lies strictly inside both hit boxes. */
  lemma CoinCollisionIffCommonPoint(p: Player, c: Coin)
    ensures var pb := PlayerHitbox(p, 12.0 * ScaleFactor);
      var cb := ItemHitbox(c.x, c.y, c.width, c.height, 4.0 * ScaleFactor);
      Proper(pb) && Proper(cb) ==> (CheckCoinCollision(p, c) <==> exists px, py :: Inside(px, py, pb) && Inside(px, py, cb))
  {
    OverlapIffCommonPoint(PlayerHitbox(p, 12.0 * ScaleFactor), ItemHitbox(c.x, c.y, c.width, c.height, 4.0 * ScaleFactor));
  }

  function Max(a: real, b: real): real { if a < b then b else a }
  function Min(a: real, b: real): real { if a < b then a else b }

  /** Two boxes of positive size overlap exactly when some point lies strictly inside both. */
  lemma OverlapIffCommonPoint(a: Box, b: Box)
    ensures Proper(a) && Proper(b) ==> (Overlap(a, b) <==> exists px, py :: Inside(px, py, a) && Inside(px, py, b))
  {
    if Proper(a) && Proper(b) && Overlap(a, b) {
      var px := (Max(a.x, b.x) + Min(a.x + a.width, b.x + b.width)) / 2.0;
      var py := (Max(a.y, b.y) + Min(a.y + a.height, b.y + b.height)) / 2.0;
      assert Inside(px, py, a) && Inside(px, py, b);
    }
  }

  /** The overlap test does not depend on which box comes first. */
  lemma OverlapSymmetric(a: Box, b: Box)
    ensures Overlap(a, b) == Overlap(b, a)
  {
  }

  /** Boxes that only share an edge, on either axis, do not collide. */
  lemma TouchingIsNoOverlap(a: Box, b: Box)
    requires a.x + a.width == b.x || b.x + b.width == a.x || a.y + a.height == b.y || b.y + b.height == a.y
    ensures !Overlap(a, b)
  {
  }

  // ---------------------------------------------------------------- score

  /** `Math.floor(score / 10) + coinsCollected * 10`: a point per ten frames and ten per coin. */
  function Score(frames: nat, coins: nat): (s: nat)
    ensures s >= 10 * coins
    ensures 10 * (s - 10 * coins) <= frames < 10 * (s - 10 * coins) + 10
  {
    frames / 10 + coins * 10
  }

  /** The score never falls when either counter grows. */
  lemma ScoreMonotone(f1: nat, c1: nat, f2: nat, c2: nat)
    requires f1 <= f2 && c1 <= c2
    ensures Score(f1, c1) <= Score(f2, c2)
  {
    var q1, q2 := Score(f1, c1) - 10 * c1, Score(f2, c2) - 10 * c2;
    // The frame parts are floors of f1 / 10 <= f2 / 10.
    assert 10 * q1 <= f1 <= f2 < 10 * q2 + 10;
    assert q1 <= q2;
  }

  /** Ten more frames are one more point; one more coin is ten more points. */
  lemma ScoreSteps(f: nat, c: nat)
    ensures Score(f + 10, c) == Score(f, c) + 1
    ensures Score(f, c + 1) == Score(f, c) + 10
  {
    var q := Score(f, c) - 10 * c;
    var q' := Score(f + 10, c) - 10 * c;
    assert 10 * q <= f < 10 * q + 10;
    assert 10 * q' <= f + 10 < 10 * q' + 10;
    assert q' == q + 1;
    var r := Score(f, c + 1) - 10 * (c + 1);
    assert 10 * r <= f < 10 * r + 10;
    assert r == q;
  }

  // ---------------------------------------------------------------- leaderboard

  /** A row of `getHighScores()`: a name and a score. */
  type ScoreRow = (string, int)

  predicate SortedByScore(s: seq<ScoreRow>) {
    forall i, j :: 0 <= i < j < |s| ==> s[i].1 >= s[j].1
  }

  /**
   * One insertion step of a stable sort with comparator
   * `(a, b) => b[1] - a[1]`: the row goes after every row scoring at least
   * as much, so among equal scores the earlier row stays first.
   */
  function Insert(row: ScoreRow, s: seq<ScoreRow>): (r: seq<ScoreRow>)
    ensures multiset(r) == multiset(s) + multiset{row} && |r| == |s| + 1
  {
    if s == [] then [row]
    else if s[0].1 >= row.1 then
      assert s == [s[0]] + s[1..];
      [s[0]] + Insert(row, s[1..])
    else [row] + s
  }

  /** Inserting into a sorted list keeps it sorted. */
  lemma {:induction false} InsertSorted(row: ScoreRow, s: seq<ScoreRow>)
    requires SortedByScore(s)
    ensures SortedByScore(Insert(row, s))
  {
    if s != [] && s[0].1 >= row.1 {
      var rest := Insert(row, s[1..]);
      assert Insert(row, s) == [s[0]] + rest;
      hide Insert;
      InsertSorted(row, s[1..]);
      InsertBelow(row, s[1..], s[0].1);
      assert SortedByScore([s[0]] + rest);
    }
  }

  /** Inserting a row scoring at most `b` into rows scoring at most `b` keeps every score at most `b`. */
  lemma InsertBelow(row: ScoreRow, t: seq<ScoreRow>, b: int)
    requires row.1 <= b && forall j :: 0 <= j < |t| ==> t[j].1 <= b
    ensures forall j :: 0 <= j < |Insert(row, t)| ==> Insert(row, t)[j].1 <= b
  {
    var r := Insert(row, t);
    forall j | 0 <= j < |r|
      ensures r[j].1 <= b
    {
      assert r[j] in multiset(r);
      if r[j] != row {
        assert r[j] in multiset(t);
      }
    }
  }

  /**
   * `highScores.sort((a, b) => Number(b[1]) - Number(a[1]))`: JavaScript's
   * `sort` is stable, which is what an insertion sort taking the rows in
   * order gives.
   */
  function SortByScore(s: seq<ScoreRow>): (r: seq<ScoreRow>)
    ensures SortedByScore(r) && multiset(r) == multiset(s) && |r| == |s|
  {
    if s == [] then []
    else
      var init := SortByScore(s[..|s| - 1]);
      assert s == s[..|s| - 1] + [s[|s| - 1]];
      InsertSorted(s[|s| - 1], init);
      Insert(s[|s| - 1], init)
  }

  /** The rows of `s` with score `k`, in order. */
  function WithScore(s: seq<ScoreRow>, k: int): (r: seq<ScoreRow>)
    ensures forall x :: x in r ==> x in s && x.1 == k
  {
    if s == [] then [] else (if s[0].1 == k then [s[0]] else []) + WithScore(s[1..], k)
  }

  lemma {:induction false} WithScoreAppend(s: seq<ScoreRow>, t: seq<ScoreRow>, k: int)
    ensures WithScore(s + t, k) == WithScore(s, k) + WithScore(t, k)
  {
    if s == [] {
      assert s + t == t;
    } else {
      assert (s + t)[1..] == s[1..] + t;
      WithScoreAppend(s[1..], t, k);
    }
  }

  /** Inserting a row puts it after the rows of its own score already there. */
  lemma {:induction false} InsertStable(row: ScoreRow, s: seq<ScoreRow>, k: int)
    requires SortedByScore(s)
    ensures WithScore(Insert(row, s), k) == WithScore(s, k) + WithScore([row], k)
  {
    if s == [] {
      assert Insert(row, s) == [row];
    } else if s[0].1 >= row.1 {
      InsertStable(row, s[1..], k);
      InsertBehindHead(row, s, k);
    } else {
      InsertAhead(row, s, k);
    }
  }

  /** A row that goes behind the head keeps its place among its score if it does so in the tail. */
  lemma InsertBehindHead(row: ScoreRow, s: seq<ScoreRow>, k: int)
    requires s != [] && s[0].1 >= row.1
    requires WithScore(Insert(row, s[1..]), k) == WithScore(s[1..], k) + WithScore([row], k)
    ensures WithScore(Insert(row, s), k) == WithScore(s, k) + WithScore([row], k)
  {
    var rest := Insert(row, s[1..]);
    InsertBehind(row, s);
    ConsSplit(s);
    hide Insert, WithScore;
    WithScoreAppend([s[0]], rest, k);
    WithScoreAppend([s[0]], s[1..], k);
    Regroup(WithScore(Insert(row, s), k), WithScore(s, k), WithScore([s[0]], k),
      WithScore(s[1..], k), WithScore([row], k), WithScore(rest, k));
  }

  lemma InsertBehind(row: ScoreRow, s: seq<ScoreRow>)
    requires s != [] && s[0].1 >= row.1
    ensures Insert(row, s) == [s[0]] + Insert(row, s[1..])
  {
  }

  lemma ConsSplit<T>(s: seq<T>)
    requires s != []
    ensures [s[0]] + s[1..] == s
  {
  }

  lemma SnocSplit<T>(s: seq<T>)
    requires s != []
    ensures s[..|s| - 1] + [s[|s| - 1]] == s
  {
  }

  /** Regrouping the equalities in the inductive step of the stability proof. */
  lemma Regroup<T>(inserted: seq<T>, whole: seq<T>, head: seq<T>, tail: seq<T>, mine: seq<T>, rest: seq<T>)
    requires inserted == head + rest && whole == head + tail && rest == tail + mine
    ensures inserted == whole + mine
  {
  }

  /** A row scoring more than every row of a sorted list goes first, and no row of its score is passed. */
  lemma InsertAhead(row: ScoreRow, s: seq<ScoreRow>, k: int)
    requires SortedByScore(s) && s != [] && s[0].1 < row.1
    ensures WithScore(Insert(row, s), k) == WithScore(s, k) + WithScore([row], k)
  {
    assert Insert(row, s) == [row] + s;
    hide Insert;
    WithScoreAppend([row], s, k);
    if k == row.1 {
      NoneWithScore(s, k);
    } else {
      assert WithScore([row], k) == [];
    }
  }

  lemma {:induction false} NoneWithScore(s: seq<ScoreRow>, k: int)
    requires SortedByScore(s) && (s != [] ==> s[0].1 < k)
    ensures WithScore(s, k) == []
  {
    if s != [] {
      NoneWithScore(s[1..], k);
    }
  }

  /** The sort is stable: the rows of any one score come out in the order they went in. */
  lemma {:induction false} SortStable(s: seq<ScoreRow>, k: int)
    ensures WithScore(SortByScore(s), k) == WithScore(s, k)
  {
    if s != [] {
      var init, last := s[..|s| - 1], s[|s| - 1];
      SortStable(init, k);
      InsertStable(last, SortByScore(init), k);
      assert SortByScore(s) == Insert(last, SortByScore(init));
      SnocSplit(s);
      hide SortByScore, Insert, WithScore;
      WithScoreAppend(init, [last], k);
    }
  }

  /** `topScores`: the sorted rows cut to five; no rows fetched yet gives none. */
  function TopScores(highScores: Option<seq<ScoreRow>>): seq<ScoreRow> {
    match highScores
    case None => []
    case Some(h) =>
      var sorted := SortByScore(h);
      if |sorted| <= 5 then sorted else sorted[..5]
  }

  /**
   * The leaderboard shows at most five rows, highest score first, all of
   * them fetched rows; and every fetched row left off scores no more than
   * every row shown.
   */
  lemma TopScoresAreTheTop(h: seq<ScoreRow>)
    ensures var top := TopScores(Some(h));
      && |top| == (if |h| < 5 then |h| else 5)
      && SortedByScore(top)
      && multiset(top) <= multiset(h)
      && forall x, i :: x in multiset(h) - multiset(top) && 0 <= i < |top| ==> x.1 <= top[i].1
  {
    TopScoresCut(h);
    hide TopScores, SortByScore;
    SortedSplit(SortByScore(h), if |h| < 5 then |h| else 5);
  }

  lemma TopScoresCut(h: seq<ScoreRow>)
    ensures TopScores(Some(h)) == SortByScore(h)[..if |h| < 5 then |h| else 5]
  {
  }

  /**
   * Cutting a sorted list at `n`: the head is sorted, the two parts hold
   * the rows of the whole, and no row of the tail outscores one of the head.
   */
  lemma SortedSplit(sorted: seq<ScoreRow>, n: nat)
    requires SortedByScore(sorted) && n <= |sorted|
    ensures SortedByScore(sorted[..n])
    ensures multiset(sorted[..n]) <= multiset(sorted)
    ensures multiset(sorted) - multiset(sorted[..n]) == multiset(sorted[n..])
    ensures forall x, i :: x in multiset(sorted[n..]) && 0 <= i < n ==> x.1 <= sorted[..n][i].1
  {
    var top, rest := sorted[..n], sorted[n..];
    assert sorted == top + rest;
    assert multiset(sorted) == multiset(top) + multiset(rest);
    forall x: ScoreRow, i | x in multiset(rest) && 0 <= i < n
      ensures x.1 <= top[i].1
    {
      var j :| 0 <= j < |rest| && rest[j] == x;
      assert sorted[n + j] == x && sorted[i] == top[i];
    }
  }

  // ---------------------------------------------------------------- trimming the player's name

  /** The characters `String.prototype.trim` removes: white space and line terminators. */
  predicate IsJsSpace(c: char) {
    var n := c as int;
    || n == 0x09 || n == 0x0A || n == 0x0B || n == 0x0C || n == 0x0D || n == 0x20
    || n == 0xA0 || n == 0x1680 || (0x2000 <= n <= 0x200A) || n == 0x2028 || n == 0x2029
    || n == 0x202F || n == 0x205F || n == 0x3000 || n == 0xFEFF
  }

  predicate AllSpace(s: string) {
    forall i :: 0 <= i < |s| ==> IsJsSpace(s[i])
  }

  /** The string without its leading white space. */
  function TrimStart(s: string): (r: string)
    ensures |r| <= |s| && r == s[|s| - |r|..]
    ensures AllSpace(s[..|s| - |r|])
    ensures r == [] || !IsJsSpace(r[0])
  {
    if s == [] || !IsJsSpace(s[0]) then s else TrimStart(s[1..])
  }

  /** The string without its trailing white space. */
  function TrimEnd(s: string): (r: string)
    ensures |r| <= |s| && r == s[..|r|]
    ensures AllSpace(s[|r|..])
    ensures r == [] || !IsJsSpace(r[|r| - 1])
  {
    if s == [] || !IsJsSpace(s[|s| - 1]) then s else TrimEnd(s[..|s| - 1])
  }

  /** `s.trim()`. */
  function Trim(s: string): string {
    TrimEnd(TrimStart(s))
  }

  /**
   * What `trim` returns: a slice of the input with only white space cut
   * from either end, and no white space left at either end.
   */
  lemma TrimIsCore(s: string)
    ensures var r := Trim(s);
      && (r == [] || (!IsJsSpace(r[0]) && !IsJsSpace(r[|r| - 1])))
      && exists i :: 0 <= i <= |s| - |r| && r == s[i..i + |r|] && AllSpace(s[..i]) && AllSpace(s[i + |r|..])
  {
    TrimEndsNotSpace(s);
    TrimSlices(s);
    hide TrimStart, TrimEnd;
    var t := TrimStart(s);
    var i := |s| - |t|;
    assert Trim(s) == TrimEnd(t);
    assert 0 <= i <= |s| - |Trim(s)|;
  }

  lemma TrimEndsNotSpace(s: string)
    ensures var r := Trim(s); r == [] || (!IsJsSpace(r[0]) && !IsJsSpace(r[|r| - 1]))
  {
    hide TrimStart, TrimEnd;
    var t := TrimStart(s);
    var r := TrimEnd(t);
    if r != [] {
      assert r[0] == t[0];
    }
  }

  /** Where the trimmed name sits in the input. */
  lemma TrimSlices(s: string)
    ensures var t := TrimStart(s); var i := |s| - |t|; var r := TrimEnd(t);
      && i + |r| <= |s|
      && r == s[i..i + |r|]
      && AllSpace(s[..i])
      && AllSpace(s[i + |r|..])
  {
    hide TrimStart, TrimEnd;
    var t := TrimStart(s);
    var i := |s| - |t|;
    var r := TrimEnd(t);
    assert t == s[i..] && AllSpace(s[..i]);
    assert r == t[..|r|] && AllSpace(t[|r|..]);
    assert s[i..i + |r|] == t[..|r|];
    assert s[i + |r|..] == t[|r|..];
  }

  /** A name trims to nothing exactly when it is all white space. */
  lemma TrimEmptyIffSpace(s: string)
    ensures Trim(s) == [] <==> AllSpace(s)
  {
    var t := TrimStart(s);
    var i := |s| - |t|;
    if Trim(s) == [] {
      assert AllSpace(t[0..]) && t[0..] == t;
      forall k | 0 <= k < |s|
        ensures IsJsSpace(s[k])
      {
        if k < i {
          assert s[..i][k] == s[k];
        } else {
          assert t[k - i] == s[k];
        }
      }
    }
  }

  /** Trimming a trimmed name changes nothing. */
  lemma TrimIdempotent(s: string)
    ensures Trim(Trim(s)) == Trim(s)
  {
    TrimIsCore(s);
    var r := Trim(s);
    if r != [] {
      assert TrimStart(r) == r;
      assert TrimEnd(r) == r;
    }
  }
}
