/**
 * Player physics: turning the held keys into velocity (`updatePlayer`),
 * axis-separated movement with tile collisions (`movePlayerWithCollision`)
 * and the tile-grid collision test (`checkCollision`). All quantities are in
 * half-pixel units (see Geometry).
 */
module Physics {
  import opened Wrappers
  import opened Geometry
  import opened Levels
  import opened Entities

  /** 4 px per input to the left or right. */
  const SPEED: int := 8
  /** -12 px: the vertical velocity a jump sets. */
  const JUMP_VELOCITY: int := -24
  /** 0.5 px added to the vertical velocity on every input. */
  const GRAVITY: int := 1

  /**
   * Reference definition of a collision: some platform tile lies in the
   * range of tiles the test covers for a box at (x, y).
   */
  ghost predicate Blocked(x: int, y: int, level: Level) {
    exists t :: t in level.platforms && TileOf(x) <= t.x <= LastTileOf(x) && TileOf(y) <= t.y <= LastTileOf(y)
  }

  /** The inner loop of `checkCollision`: rows ty..bottom of column tx. */
  function ScanRows(level: Level, tx: int, ty: int, bottom: int): (hit: bool)
    decreases bottom - ty
    ensures hit <==> exists r :: ty <= r <= bottom && Tile(tx, r) in level.platforms
  {
    if ty > bottom then false
    else if Tile(tx, ty) in level.platforms then true
    else ScanRows(level, tx, ty + 1, bottom)
  }

  /** The outer loop of `checkCollision`: columns tx..right. */
  function ScanColumns(level: Level, tx: int, right: int, top: int, bottom: int): (hit: bool)
    decreases right - tx
    ensures hit <==> exists c, r :: tx <= c <= right && top <= r <= bottom && Tile(c, r) in level.platforms
  {
    if tx > right then false
    else if ScanRows(level, tx, top, bottom) then true
    else ScanColumns(level, tx + 1, right, top, bottom)
  }

  /**
   * `checkCollision`. The source also walks the doors, but its `return true`
   * for a closed door sits inside a `forEach` callback and only ends that
   * callback: the verdict is thrown away. So only platforms ever block, and
   * the doors, passed here as the source reads them, have no effect.
   */
  function CheckCollision(x: int, y: int, level: Level, doors: seq<Door>): bool {
    ScanColumns(level, TileOf(x), LastTileOf(x), TileOf(y), LastTileOf(y))
  }

  /** `checkCollision` reports a collision exactly when some platform tile lies in the covered range. */
  lemma CheckCollisionMeansBlocked(x: int, y: int, level: Level, doors: seq<Door>)
    ensures CheckCollision(x, y, level, doors) <==> Blocked(x, y, level)
  {
    if Blocked(x, y, level) {
      var t :| t in level.platforms && TileOf(x) <= t.x <= LastTileOf(x) && TileOf(y) <= t.y <= LastTileOf(y);
      assert Tile(t.x, t.y) == t;
    }
  }

  /** The first half of `updatePlayer`: keys to velocity, a jump from the ground, gravity. */
  function ApplyInput(p: Player, keys: KeyState): Player {
    var vx := if keys.right then SPEED else if keys.left then -SPEED else 0;
    var jumps := keys.jump && p.onGround;
    p.(keys := keys, vx := vx,
       vy := (if jumps then JUMP_VELOCITY else p.vy) + GRAVITY,
       onGround := p.onGround && !jumps)
  }

  /** The first half of `updatePlayer`, one field at a time as the source does it. */
  method ApplyKeys(p: Player, keys: KeyState) returns (q: Player)
    ensures q == ApplyInput(p, keys)
  {
    q := p.(keys := keys);
    // vx from the arrow keys; right takes precedence
    q := q.(vx := 0);
    if keys.left {
      q := q.(vx := -SPEED);
    }
    if keys.right {
      q := q.(vx := SPEED);
    }
    // a jump only from the ground
    if keys.jump && q.onGround {
      q := q.(vy := JUMP_VELOCITY, onGround := false);
    }
    // then one step of gravity
    q := q.(vy := q.vy + GRAVITY);
  }

  /** Move by vx; a move into a platform is undone, and vx is kept. */
  function HorizontalStep(p: Player, level: Level, doors: seq<Door>): Player {
    var x := p.x + p.vx;
    if CheckCollision(x, p.y, level, doors) then p else p.(x := x)
  }

  /**
   * Move by vy. On a collision while falling the player is put on top of the
   * tile row its bottom edge reached and lands; on a collision while rising
   * (or standing) it is put just below the row its top edge reached. Without a
   * collision it is airborne.
   */
  function VerticalStep(p: Player, level: Level, doors: seq<Door>): Player {
    var y := p.y + p.vy;
    if CheckCollision(p.x, y, level, doors) then
      if p.vy > 0 then p.(y := (y + PLAYER_SIZE) / TILE * TILE - PLAYER_SIZE, vy := 0, onGround := true)
      else p.(y := y / TILE * TILE + TILE, vy := 0)
    else p.(y := y, onGround := false)
  }

  /** `Math.max(0, Math.min(v, hi))`. */
  function Clamp(v: int, hi: int): int {
    if v <= hi then (if v < 0 then 0 else v) else (if hi < 0 then 0 else hi)
  }

  /** Keep the box inside the level. */
  function ClampToLevel(p: Player, level: Level): Player {
    p.(x := Clamp(p.x, level.width * TILE - PLAYER_SIZE),
       y := Clamp(p.y, level.height * TILE - PLAYER_SIZE))
  }

  /** What `movePlayerWithCollision` does to a player. */
  function Resolve(p: Player, level: Level, doors: seq<Door>): Player {
    ClampToLevel(VerticalStep(HorizontalStep(p, level, doors), level, doors), level)
  }

  /** `movePlayerWithCollision`, one field assignment at a time as the source does it. */
  method MovePlayerWithCollision(p: Player, level: Level, doors: seq<Door>) returns (q: Player)
    ensures q == Resolve(p, level, doors)
  {
    var x, y, vy, onGround := p.x, p.y, p.vy, p.onGround;
    // step along x, undone when the new box meets a platform
    x := x + p.vx;
    if CheckCollision(x, y, level, doors) {
      x := x - p.vx;
    }
    ghost var h := HorizontalStep(p, level, doors);
    assert h == p.(x := x);
    // step along y
    y := y + vy;
    var collision := CheckCollision(x, y, level, doors);
    if collision {
      if vy > 0 {
        // falling: snap the box's bottom onto the row below
        onGround := true;
        vy := 0;
        var tileY := (y + PLAYER_SIZE) / TILE * TILE;
        y := tileY - PLAYER_SIZE;
      } else {
        // rising: snap the box's top under the row above
        vy := 0;
        var tileY := y / TILE * TILE;
        y := tileY + TILE;
      }
    } else {
      onGround := false;
    }
    assert VerticalStep(h, level, doors) == p.(x := x, y := y, vy := vy, onGround := onGround);
    // clamp the box to the level
    x := Clamp(x, level.width * TILE - PLAYER_SIZE);
    y := Clamp(y, level.height * TILE - PLAYER_SIZE);
    q := p.(x := x, y := y, vy := vy, onGround := onGround);
  }

  /**
   * After the move the player is inside the level (for a level of at least
   * one tile each way), vx and the stored keys are untouched, and a player on
   * the ground has no vertical speed.
   */
  lemma ResolveInside(p: Player, level: Level, doors: seq<Door>)
    ensures var q := Resolve(p, level, doors);
      && q.vx == p.vx && q.id == p.id && q.keys == p.keys
      && 0 <= q.x && (level.width >= 1 ==> q.x <= level.width * TILE - PLAYER_SIZE)
      && 0 <= q.y && (level.height >= 1 ==> q.y <= level.height * TILE - PLAYER_SIZE)
      && (q.onGround ==> q.vy == 0)
  {
    var m := VerticalStep(HorizontalStep(p, level, doors), level, doors);
    ClampBounds(level.width, m.x);
    ClampBounds(level.height, m.y);
  }

  /** A coordinate clamped to a level of n >= 1 tiles lies inside it. */
  lemma ClampBounds(n: int, v: int)
    ensures 0 <= Clamp(v, n * TILE - PLAYER_SIZE)
    ensures n >= 1 ==> Clamp(v, n * TILE - PLAYER_SIZE) <= n * TILE - PLAYER_SIZE
  {
    if n >= 1 {
      assert n * TILE == 80 * n;
    }
  }

  /**
   * Input handling: vx is -4, 0 or 4 px with right winning over left, a jump
   * is honoured only from the ground, and gravity is always added.
   */
  lemma InputSetsVelocity(p: Player, keys: KeyState)
    ensures var q := ApplyInput(p, keys);
      && q.vx in {-SPEED, 0, SPEED}
      && (keys.right ==> q.vx == SPEED)
      && (keys.left && !keys.right ==> q.vx == -SPEED)
      && (!keys.left && !keys.right ==> q.vx == 0)
      && (keys.jump && p.onGround ==> q.vy == JUMP_VELOCITY + GRAVITY && !q.onGround)
      && (!(keys.jump && p.onGround) ==> q.vy == p.vy + GRAVITY && q.onGround == p.onGround)
      && q.x == p.x && q.y == p.y && q.keys == keys
  {
  }

  /**
   * A horizontal step into a platform is undone, keeping vx, and otherwise
   * taken; it never takes a player who is clear of the platforms into one.
   */
  lemma HorizontalStepKeepsClear(p: Player, level: Level, doors: seq<Door>)
    ensures var q := HorizontalStep(p, level, doors);
      && q.y == p.y && q.vx == p.vx
      && q.x == (if Blocked(p.x + p.vx, p.y, level) then p.x else p.x + p.vx)
      && (!Blocked(p.x, p.y, level) ==> !Blocked(q.x, q.y, level))
  {
    CheckCollisionMeansBlocked(p.x + p.vx, p.y, level, doors);
  }

  /** Row arithmetic of a landing: the box ends in the one row just above the row its bottom edge reached. */
  lemma LandingRow(y: int)
    ensures var y' := (y + PLAYER_SIZE) / TILE * TILE - PLAYER_SIZE;
      && TileOf(y') == LastTileOf(y') == (y + PLAYER_SIZE) / TILE - 1
      && (y' + PLAYER_SIZE) % TILE == 0
  {
    var R := (y + 40) / 80;
    assert R * TILE == 80 * R;
    var y' := 80 * R - 40;
    assert y' == 80 * (R - 1) + 40;
    assert (y' + 38) == 80 * (R - 1) + 78;
  }

  /** Row arithmetic of a bump: the box ends in the one row just below the row its top edge reached. */
  lemma CeilingRow(y: int)
    ensures var y' := y / TILE * TILE + TILE;
      && TileOf(y') == LastTileOf(y') == y / TILE + 1
      && y' % TILE == 0
  {
    var T := y / 80;
    assert T * TILE == 80 * T;
    assert y / TILE * TILE + TILE == 80 * (T + 1);
    assert 80 * (T + 1) + 38 == 80 * (T + 1) + 38;
  }

  /**
   * Landing puts the player to rest with the bottom of its box on a tile
   * boundary; bumping a ceiling puts the top of its box on one.
   */
  lemma VerticalStepSnaps(p: Player, level: Level, doors: seq<Door>)
    ensures var q := VerticalStep(p, level, doors);
      && (p.vy > 0 && Blocked(p.x, p.y + p.vy, level) ==>
            q.onGround && q.vy == 0 && (q.y + PLAYER_SIZE) % TILE == 0 && TileOf(q.y) == LastTileOf(q.y))
      && (!Blocked(p.x, p.y + p.vy, level) ==> !q.onGround)
      && (q.onGround ==> q.vy == 0)
      && (p.vy <= 0 && Blocked(p.x, p.y + p.vy, level) ==> q.vy == 0 && q.y % TILE == 0)
      && (!Blocked(p.x, p.y + p.vy, level) ==> q.y == p.y + p.vy && q.vy == p.vy)
  {
    CheckCollisionMeansBlocked(p.x, p.y + p.vy, level, doors);
    LandingRow(p.y + p.vy);
    CeilingRow(p.y + p.vy);
  }

  /**
   * Row arithmetic behind VerticalStepKeepsClear: when a step of at most
   * 40 px up or 39 px down newly reaches row r, the row the player is snapped
   * into is one of the rows its box covered before the step.
   */
  lemma SnappedRowWithin(y: int, vy: int, r: int)
    requires -TILE <= vy <= TILE - PIXEL
    requires TileOf(y + vy) <= r <= LastTileOf(y + vy)
    requires !(TileOf(y) <= r <= LastTileOf(y))
    ensures var y' := if vy > 0 then (y + vy + PLAYER_SIZE) / TILE * TILE - PLAYER_SIZE
                      else (y + vy) / TILE * TILE + TILE;
      TileOf(y) <= TileOf(y') && LastTileOf(y') <= LastTileOf(y)
  {
    var a, b := y / 80, (y + 38) / 80;
    assert y == 80 * a + y % 80 && y + 38 == 80 * b + (y + 38) % 80;
    var y1 := y + vy;
    if vy > 0 {
      LandingRow(y1);
      var R := (y1 + 40) / 80;
      assert y1 + 40 == 80 * R + (y1 + 40) % 80;
      var b1 := (y1 + 38) / 80;
      assert y1 + 38 == 80 * b1 + (y1 + 38) % 80;
      assert y1 / 80 >= a;
      assert r > b;
      assert a <= R - 1 <= b;
    } else {
      CeilingRow(y1);
      var T := y1 / 80;
      assert y1 == 80 * T + y1 % 80;
      assert (y1 + 38) / 80 <= b;
      assert r < a;
      assert a <= T + 1 <= b;
    }
  }

  /**
   * At moderate vertical speed (at most 40 px up, 39 px down per step) a
   * player clear of the platforms is still clear after the vertical step:
   * the row it snaps into is one its box already covered.
   */
  lemma VerticalStepKeepsClear(p: Player, level: Level, doors: seq<Door>)
    requires !Blocked(p.x, p.y, level)
    requires -TILE <= p.vy <= TILE - PIXEL
    ensures var q := VerticalStep(p, level, doors); !Blocked(q.x, q.y, level)
  {
    var q := VerticalStep(p, level, doors);
    var y := p.y + p.vy;
    CheckCollisionMeansBlocked(p.x, y, level, doors);
    if Blocked(p.x, y, level) {
      SnapWithinStartRows(p, level, doors);
      RowsWithinClear(p.x, p.y, q.y, level);
    } else {
      assert q.x == p.x && q.y == y;
    }
  }

  /** A snap after a hit leaves the box within the rows it started in, in the same columns. */
  lemma SnapWithinStartRows(p: Player, level: Level, doors: seq<Door>)
    requires !Blocked(p.x, p.y, level) && Blocked(p.x, p.y + p.vy, level)
    requires -TILE <= p.vy <= TILE - PIXEL
    ensures var q := VerticalStep(p, level, doors);
      q.x == p.x && TileOf(p.y) <= TileOf(q.y) && LastTileOf(q.y) <= LastTileOf(p.y)
  {
    var y := p.y + p.vy;
    CheckCollisionMeansBlocked(p.x, y, level, doors);
    var t :| t in level.platforms && TileOf(p.x) <= t.x <= LastTileOf(p.x) && TileOf(y) <= t.y <= LastTileOf(y);
    SnappedRowWithin(p.y, p.vy, t.y);
  }

  /** A box whose rows lie within those of a clear box in the same columns is clear. */
  lemma RowsWithinClear(x: int, y: int, y': int, level: Level)
    requires !Blocked(x, y, level)
    requires TileOf(y) <= TileOf(y') && LastTileOf(y') <= LastTileOf(y)
    ensures !Blocked(x, y', level)
  {
    forall u | u in level.platforms && TileOf(x) <= u.x <= LastTileOf(x)
      ensures !(TileOf(y') <= u.y <= LastTileOf(y'))
    {
      assert !(TileOf(y) <= u.y <= LastTileOf(y));
    }
  }

  /** Clamping changes nothing for a player already inside the level. */
  lemma ClampInside(p: Player, level: Level)
    requires 0 <= p.x <= level.width * TILE - PLAYER_SIZE
    requires 0 <= p.y <= level.height * TILE - PLAYER_SIZE
    ensures ClampToLevel(p, level) == p
  {
  }

  /**
   * The whole move keeps a player clear of the platforms when it starts
   * clear, moves at moderate vertical speed and stays inside the level.
   */
  lemma ResolveKeepsClear(p: Player, level: Level, doors: seq<Door>)
    requires !Blocked(p.x, p.y, level)
    requires -TILE <= p.vy <= TILE - PIXEL
    ensures var m := VerticalStep(HorizontalStep(p, level, doors), level, doors);
      !Blocked(m.x, m.y, level) &&
      (0 <= m.x <= level.width * TILE - PLAYER_SIZE && 0 <= m.y <= level.height * TILE - PLAYER_SIZE ==>
        !Blocked(Resolve(p, level, doors).x, Resolve(p, level, doors).y, level))
  {
    var h := HorizontalStep(p, level, doors);
    HorizontalStepKeepsClear(p, level, doors);
    VerticalStepKeepsClear(h, level, doors);
  }

  /** Faster than that, a falling player passes straight through a one-tile platform. */
  lemma FastFallTunnels()
    ensures var level := Level(1, 1, 4, [Tile(0, 1)], [], [], [], None, [Tile(0, 0)]);
      var p := Player(1, "Player1", "#ff0000", 0, 0, 0, 2 * TILE, false, NO_KEYS);
      && !Blocked(p.x, p.y, level)
      && Resolve(p, level, []).y == 2 * TILE
      && !Resolve(p, level, []).onGround
  {
  }

  /** Door state never affects the collision test. */
  lemma CollisionIgnoresDoors(x: int, y: int, level: Level, doors: seq<Door>, doors': seq<Door>)
    ensures CheckCollision(x, y, level, doors) == CheckCollision(x, y, level, doors')
  {
  }

  /** A closed door covering the player's own tile does not block it. */
  lemma ClosedDoorDoesNotBlock()
    ensures var level := Level(1, 2, 2, [], [], [DoorDef(0, 0, BySwitch(0))], [], None, [Tile(0, 0)]);
      !CheckCollision(0, 0, level, [Door(DoorDef(0, 0, BySwitch(0)), false)])
  {
  }
}
