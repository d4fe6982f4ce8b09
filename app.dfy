/** The browser side of the game: the tick speed, the player name and avatar
    rules, the local top-10 leaderboard, and the once-per-game high-score gate. */
module App {
  import opened Options
  import opened Text
  import opened Ranking
  import SnakeLogic

  const BASE_TICK_MS: int := 170
  const MIN_TICK_MS: int := 60
  const GRID_SIZE: int := 16
  const LEADERBOARD_SIZE: nat := 10
  /** Snake, frog, tiger, panda, fox, octopus. */
  const AVATARS: seq<string> :=
    ["\U{1F40D}", "\U{1F438}", "\U{1F42F}", "\U{1F43C}", "\U{1F98A}", "\U{1F419}"]

  /** `getTickMsForScore`: 170 ms, 4 ms faster for every two points, never
      below 60 ms. */
  function TickMsForScore(score: int): (ms: int)
    ensures MIN_TICK_MS <= ms
    ensures score >= 0 ==> ms <= BASE_TICK_MS
    ensures ms == MIN_TICK_MS || ms == BASE_TICK_MS - 4 * (score / 2)
  {
    var stepDown := (score / 2) * 4;
    if MIN_TICK_MS < BASE_TICK_MS - stepDown then BASE_TICK_MS - stepDown else MIN_TICK_MS
  }

  /** A higher score never gives a slower tick. */
  lemma TickMsMonotone(a: int, b: int)
    requires a <= b
    ensures TickMsForScore(b) <= TickMsForScore(a)
  {
    assert a / 2 <= b / 2;
  }

  /** The floor of 60 ms is reached at score 56 and not before. */
  lemma TickMsFloor(score: int)
    ensures score >= 56 ==> TickMsForScore(score) == MIN_TICK_MS
    ensures score < 56 ==> TickMsForScore(score) > MIN_TICK_MS
  {
  }

  /** `normalizePlayerName`: `(value || "").trim().slice(0, 16) || "Player"`. */
  function NormalizePlayerName(value: Option<string>): (name: string)
    ensures name != [] && |name| <= 16
  {
    NormalizeName(value.GetOr(""))
  }

  /** A missing name, an empty one, or one of white space only becomes
      "Player"; any other name keeps its first (at most) 16 trimmed characters. */
  lemma NormalizePlayerNameDefault(value: Option<string>)
    ensures value.None? ==> NormalizePlayerName(value) == "Player"
    ensures value.Some? && (forall k :: 0 <= k < |value.value| ==> IsSpace(value.value[k])) ==>
      NormalizePlayerName(value) == "Player"
    ensures value.Some? && Trim(value.value) != [] ==>
      var t := Trim(value.value);
      NormalizePlayerName(value) == t[..if |t| < 16 then |t| else 16]
  {
    var raw := value.GetOr("");
    NormalizeNameSpec(raw);
    TrimEmptyIffBlank(raw);
  }

  /** `AVATARS.indexOf(avatar) >= 0 ? avatar : AVATARS[0]`, with `None` for a
      value that is not a string. */
  function AvatarOrDefault(avatar: Option<string>): (r: string)
    ensures r in AVATARS
    ensures avatar.Some? && avatar.value in AVATARS ==> r == avatar.value
    ensures avatar.None? || avatar.value !in AVATARS ==> r == AVATARS[0]
  {
    if avatar.Some? && avatar.value in AVATARS then avatar.value else AVATARS[0]
  }

  /** Normalizing an avatar twice changes nothing more. */
  lemma AvatarOrDefaultIdempotent(avatar: Option<string>)
    ensures AvatarOrDefault(Some(AvatarOrDefault(avatar))) == AvatarOrDefault(avatar)
  {
  }

  datatype Profile = Profile(name: string, avatar: string)

  /** The profile `loadPlayerProfile` makes of a stored name and avatar. */
  function StoredProfile(name: Option<string>, avatar: Option<string>): (p: Profile)
    ensures p.name != [] && |p.name| <= 16 && p.avatar in AVATARS
  {
    Profile(NormalizePlayerName(name), AvatarOrDefault(avatar))
  }

  /** After a top-k cut the first score is the best score of everything that
      was ranked, and it belongs to one of the ranked entries. */
  lemma {:induction false} TopRankedHighScore(s: seq<Entry>, k: nat)
    requires k > 0 && |s| > 0
    ensures forall e :: e in s ==> e.score <= HighScoreOf(TopRanked(s, k))
    ensures exists e :: e in s && e.score == HighScoreOf(TopRanked(s, k))
  {
    var r := TopRanked(s, k);
    assert r[0] in multiset(r);
    forall e | e in s ensures e.score <= HighScoreOf(r) {
      assert e in multiset(s);
      if e !in multiset(r) {
        assert e in multiset(s) - multiset(r);
        assert Precedes(r[0], e);
      } else {
        var i :| 0 <= i < |r| && r[i] == e;
      }
    }
  }

  /** Every game the page starts, on its 16 x 16 board, is a valid one. */
  lemma FreshGameValid(u: real)
    requires 0.0 <= u < 1.0
    ensures SnakeLogic.Valid(SnakeLogic.InitialState(Some(GRID_SIZE), u))
  {
    SnakeLogic.InitialStateValidIff(Some(GRID_SIZE), u);
  }

  /** `SnakeLogic.createInitialState({ gridSize: 16 })`, as the page calls it
      on start-up and on restart. */
  method NewGame(u: real) returns (game: SnakeLogic.GameState)
    requires 0.0 <= u < 1.0
    ensures game == SnakeLogic.InitialState(Some(GRID_SIZE), u)
    ensures SnakeLogic.Valid(game) && game.score == 0
  {
    game := SnakeLogic.CreateInitialState(Some(GRID_SIZE), u);
    FreshGameValid(u);
  }

  /** The module-level variables of the page script that the game logic
      touches, and the functions that update them. */
  class App {
    var state: SnakeLogic.GameState
    var currentTickMs: int
    var leaderboard: seq<Entry>
    var highScore: int
    var hasRecordedScore: bool
    var pendingHighScore: Option<int>
    var selectedAvatar: string
    var profile: Profile

    ghost predicate Valid()
      reads this
    {
      && SnakeLogic.Valid(state)
      && |leaderboard| <= LEADERBOARD_SIZE
      && highScore == HighScoreOf(leaderboard)
      && selectedAvatar in AVATARS
      && profile.avatar in AVATARS
    }

    /** Start-up: a fresh 16 x 16 game, the stored leaderboard cut to ten
        entries, the high score taken from its first entry, and the stored
        profile whose avatar becomes the selected one. */
    constructor (stored: seq<Entry>, storedName: Option<string>, storedAvatar: Option<string>, u: real)
      requires 0.0 <= u < 1.0
      ensures Valid()
      ensures state == SnakeLogic.InitialState(Some(GRID_SIZE), u)
      ensures leaderboard == if |stored| < LEADERBOARD_SIZE then stored else stored[..LEADERBOARD_SIZE]
      ensures highScore == HighScoreOf(leaderboard)
      ensures profile == StoredProfile(storedName, storedAvatar) && selectedAvatar == profile.avatar
      ensures !hasRecordedScore && pendingHighScore.None? && currentTickMs == BASE_TICK_MS
    {
      var initial := NewGame(u);
      state := initial;
      currentTickMs := BASE_TICK_MS;
      hasRecordedScore := false;
      pendingHighScore := None;
      var board := if |stored| < LEADERBOARD_SIZE then stored else stored[..LEADERBOARD_SIZE];
      leaderboard := board;
      var p := StoredProfile(storedName, storedAvatar);
      profile := p;
      highScore := HighScoreOf(board);
      selectedAvatar := p.avatar;
    }

    /** `setSelectedAvatar`: only a known avatar can be selected. */
    method SetSelectedAvatar(avatar: string)
      modifies this`selectedAvatar
      ensures selectedAvatar == AvatarOrDefault(Some(avatar))
      ensures selectedAvatar in AVATARS
    {
      selectedAvatar := if avatar in AVATARS then avatar else AVATARS[0];
    }

    /** `upsertScore`: adds a record dated `date`, keeps the ten best in
        leaderboard order, and takes the high score from the first. */
    method UpsertScore(name: string, score: int, avatar: string, date: string)
      requires Valid()
      modifies this`leaderboard, this`highScore
      ensures Valid()
      ensures leaderboard == TopRanked(old(leaderboard) + [Entry(name, score, avatar, date)], LEADERBOARD_SIZE)
      ensures Sorted(leaderboard)
      ensures highScore == HighScoreOf(leaderboard)
      ensures forall e :: e in old(leaderboard) + [Entry(name, score, avatar, date)] ==> e.score <= highScore
    {
      var all := leaderboard + [Entry(name, score, avatar, date)];
      leaderboard := TopRanked(all, LEADERBOARD_SIZE);
      highScore := if |leaderboard| > 0 then leaderboard[0].score else 0;
      TopRankedHighScore(all, LEADERBOARD_SIZE);
    }

    /** `handleGameOver`: the first call of a game latches `hasRecordedScore`
        and, when the score beats the high score, opens the entry form for it
        with the profile's avatar selected; later calls do nothing. */
    method HandleGameOver()
      requires Valid()
      modifies this`hasRecordedScore, this`pendingHighScore, this`selectedAvatar
      ensures Valid()
      ensures old(hasRecordedScore) ==> unchanged(this)
      ensures hasRecordedScore
      ensures !old(hasRecordedScore) && state.score > highScore ==>
        pendingHighScore == Some(state.score) && selectedAvatar == AvatarOrDefault(Some(profile.avatar))
      ensures !old(hasRecordedScore) && state.score <= highScore ==>
        pendingHighScore == old(pendingHighScore) && selectedAvatar == old(selectedAvatar)
    {
      if hasRecordedScore {
        return;
      }
      hasRecordedScore := true;
      if state.score <= highScore {
        return;
      }
      pendingHighScore := Some(state.score);
      SetSelectedAvatar(profile.avatar);
    }

    /** `savePendingHighScore`: stores the pending score under the typed name
        and the selected avatar, and remembers both as the profile. */
    method SavePendingHighScore(typedName: string, date: string)
      requires Valid()
      modifies this`leaderboard, this`highScore, this`profile, this`pendingHighScore
      ensures Valid()
      ensures old(pendingHighScore).None? ==> unchanged(this)
      ensures old(pendingHighScore).Some? ==>
        && profile == Profile(NormalizePlayerName(Some(typedName)), selectedAvatar)
        && leaderboard == TopRanked(old(leaderboard) + [Entry(profile.name, old(pendingHighScore).value, selectedAvatar, date)], LEADERBOARD_SIZE)
        && pendingHighScore.None?
    {
      if pendingHighScore.None? {
        return;
      }
      var name := NormalizePlayerName(Some(typedName));
      var entry := Entry(name, pendingHighScore.value, selectedAvatar, date);
      ghost var board := leaderboard + [entry];
      UpsertScore(entry.name, entry.score, entry.avatar, entry.date);
      assert leaderboard == TopRanked(board, LEADERBOARD_SIZE);
      profile, pendingHighScore := Profile(name, entry.avatar), None;
    }

    /** One timer tick: advance the game, follow the speed to the score, and
        record the game the moment it ends. */
    method Tick(u: real)
      requires Valid() && 0.0 <= u < 1.0
      modifies this`state, this`currentTickMs, this`hasRecordedScore, this`pendingHighScore, this`selectedAvatar
      ensures Valid()
      ensures state == SnakeLogic.NextState(old(state), u)
      ensures currentTickMs == TickMsForScore(state.score)
      ensures hasRecordedScore == (old(hasRecordedScore) || (!old(state).gameOver && state.gameOver))
      ensures !old(hasRecordedScore) && !old(state).gameOver && state.gameOver && state.score > highScore ==>
        pendingHighScore == Some(state.score) && selectedAvatar == AvatarOrDefault(Some(profile.avatar))
      ensures !(!old(hasRecordedScore) && !old(state).gameOver && state.gameOver && state.score > highScore) ==>
        pendingHighScore == old(pendingHighScore) && selectedAvatar == old(selectedAvatar)
    {
      var wasGameOver := state.gameOver;
      SnakeLogic.AdvancePreservesValid(state, u);
      state := SnakeLogic.Advance(state, u);
      currentTickMs := TickMsForScore(state.score);
      if !wasGameOver && state.gameOver {
        HandleGameOver();
      }
    }

    /** `handleDirection`: while input is locked (menu, countdown or entry
        form open) or the game is over, a turn is ignored; otherwise the
        engine buffers it. */
    method HandleDirection(name: string, inputLocked: bool)
      requires Valid()
      modifies this`state
      ensures Valid()
      ensures inputLocked || old(state).gameOver ==> state == old(state)
      ensures !inputLocked && !old(state).gameOver ==> state == SnakeLogic.WithDirection(old(state), name)
    {
      if inputLocked || state.gameOver {
        return;
      }
      SnakeLogic.InputsPreserveValid(state, name);
      state := SnakeLogic.WithDirection(state, name);
    }

    /** The pause key and button: ignored while input is locked, otherwise
        the engine's `togglePause`. */
    method PressPause(inputLocked: bool)
      requires Valid()
      modifies this`state
      ensures Valid()
      ensures inputLocked ==> state == old(state)
      ensures !inputLocked ==> state == SnakeLogic.TogglePause(old(state))
    {
      if inputLocked {
        return;
      }
      SnakeLogic.InputsPreserveValid(state, "");
      state := SnakeLogic.TogglePause(state);
    }

    /** `restart`: closes the entry form, starts a fresh game at the base
        speed, and re-arms the high-score gate. */
    method Restart(u: real)
      requires Valid() && 0.0 <= u < 1.0
      modifies this`state, this`currentTickMs, this`hasRecordedScore, this`pendingHighScore
      ensures Valid()
      ensures state == SnakeLogic.InitialState(Some(GRID_SIZE), u)
      ensures currentTickMs == BASE_TICK_MS
      ensures !hasRecordedScore && pendingHighScore.None?
      ensures leaderboard == old(leaderboard) && highScore == old(highScore)
      ensures profile == old(profile) && selectedAvatar == old(selectedAvatar)
    {
      var game := NewGame(u);
      state, currentTickMs := game, TickMsForScore(game.score);
      hasRecordedScore, pendingHighScore := false, None;
    }
  }
}
