/** The scanning loop of `parse` in parser.js: scan the whole buffer, and at
    every start-player window hand the shared cursor to the player reader,
    record the player it returns, and go on from wherever it stopped. */
module Parser {
  import opened Bytes
  import opened Scanner
  import opened Markers
  import opened Decoders
  import opened Players

  /** An entry of `result.players`: the cursor just after the start-player
      marker and the record the reader built. */
  datatype Player = Player(pos: nat, data: PlayerData)

  /** The outer loop compares the window at `q` with the start-player
      marker: cursor 4 (the first state, whatever the buffer's length), or a
      later cursor still inside the buffer. */
  predicate StartSeenAt(b: seq<byte>, q: nat) {
    (q == 4 || 4 < q < |b|) && Window(b, q) == StartPlayer
  }

  /** The cursors at which the outer loop meets a start-player window. */
  function StartSeen(b: seq<byte>): nat -> bool {
    (q: nat) => StartSeenAt(b, q)
  }

  /** The player reader started at a cursor, with no field recorded yet. */
  function SpanReader(b: seq<byte>): nat -> Decoded<PlayerData> {
    (p: nat) => ReadPlayerFrom(b, p, NoFields)
  }

  /** Nothing is seen past the end of a buffer of length `n` but cursor 4. */
  ghost predicate SeenWithin(seen: nat -> bool, n: nat) {
    forall q: nat :: seen(q) ==> q == 4 || q < n
  }

  /** The reader always moves the cursor on. */
  ghost predicate Advances(read: nat -> Decoded<PlayerData>) {
    forall q: nat :: q < read(q).next
  }

  /** The concrete `seen` and `read` of a buffer meet what the outer loop
      relies on: the player reader always moves on, and no start-player
      window is seen past the end. */
  lemma SpanReaderFits(b: seq<byte>)
    ensures Advances(SpanReader(b)) && SeenWithin(StartSeen(b), |b|)
  {
    forall q: nat
      ensures q < SpanReader(b)(q).next
    {
      assert SpanReader(b)(q) == ReadPlayerFrom(b, q, NoFields);
    }
  }

  /** The outer loop of `parse` at cursor `p` of a buffer of length `n`,
      with `players` found so far: `seen` says at which cursors it meets a
      start-player window, `read` what the player reader returns there. */
  function ScanPlayers(seen: nat -> bool, read: nat -> Decoded<PlayerData>, n: nat, p: nat, players: seq<Player>)
    : (r: Outcome<seq<Player>>)
    requires Advances(read)
    ensures r.Ok? ==> players <= r.value
    decreases n - p
  {
    if !seen(p) then
      if n <= p + 1 then Ok(players) else ScanPlayers(seen, read, n, p + 1, players)
    else
      var d := read(p);
      if d.outcome.OutOfRange? then OutOfRange
      else
        var found := players + [Player(p, d.outcome.value)];
        if n <= d.next + 1 then Ok(found) else ScanPlayers(seen, read, n, d.next + 1, found)
  }

  /** `parse` on an in-memory buffer: the first scan gives cursor 4. */
  function ParseBuffer(b: seq<byte>): Outcome<seq<Player>> {
    SpanReaderFits(b);
    ScanPlayers(StartSeen(b), SpanReader(b), |b|, 4, [])
  }

  // ----- what the outer loop finds, stated without running it -----

  /** No cursor in [lo, hi) is seen. */
  ghost predicate NoneSeenIn(seen: nat -> bool, lo: nat, hi: nat) {
    forall q: nat :: lo <= q < hi ==> !seen(q)
  }

  /** Where the outer loop looks for the i-th player: cursor 4 for the
      first, one past the cursor the reader left for the previous one. */
  ghost function ResumeAt(read: nat -> Decoded<PlayerData>, ps: seq<Player>, i: nat): nat
    requires i <= |ps|
  {
    if i == 0 then 4 else read(ps[i - 1].pos).next + 1
  }

  /** Each `ps[i]` sits at the first seen cursor at or after the place the
      outer loop resumes for it, and holds the record read from there. */
  ghost predicate Found(seen: nat -> bool, read: nat -> Decoded<PlayerData>, ps: seq<Player>) {
    forall i {:trigger ResumeAt(read, ps, i)} :: 0 <= i < |ps| ==>
      ResumeAt(read, ps, i) <= ps[i].pos && seen(ps[i].pos) &&
      NoneSeenIn(seen, ResumeAt(read, ps, i), ps[i].pos) &&
      read(ps[i].pos).outcome == Ok(ps[i].data)
  }

  /** `ps` are all the players: after the last one nothing is seen. */
  ghost predicate Complete(seen: nat -> bool, read: nat -> Decoded<PlayerData>, ps: seq<Player>) {
    Found(seen, read, ps) && forall q: nat :: ResumeAt(read, ps, |ps|) <= q ==> !seen(q)
  }

  /** After players `ps`, the next seen cursor opens a span whose reader throws. */
  ghost predicate AbortsAfter(seen: nat -> bool, read: nat -> Decoded<PlayerData>, ps: seq<Player>, q: nat) {
    Found(seen, read, ps) && ResumeAt(read, ps, |ps|) <= q && seen(q) &&
    NoneSeenIn(seen, ResumeAt(read, ps, |ps|), q) && read(q).outcome.OutOfRange?
  }

  ghost predicate Aborted(seen: nat -> bool, read: nat -> Decoded<PlayerData>) {
    exists ps: seq<Player>, q: nat :: AbortsAfter(seen, read, ps, q)
  }

  /** `ps` lists every player of buffer `b`, in order. */
  ghost predicate CompleteParse(b: seq<byte>, ps: seq<Player>) {
    Complete(StartSeen(b), SpanReader(b), ps)
  }

  /** The reader of some player of buffer `b` reads past its end. */
  ghost predicate AbortedParse(b: seq<byte>) {
    Aborted(StartSeen(b), SpanReader(b))
  }

  lemma ResumeAtAppend(read: nat -> Decoded<PlayerData>, ps: seq<Player>, x: Player, i: nat)
    requires i <= |ps|
    ensures ResumeAt(read, ps + [x], i) == ResumeAt(read, ps, i)
  {
    if i > 0 {
      assert (ps + [x])[i - 1] == ps[i - 1];
    }
  }

  /** Appending the player at the next seen cursor keeps `Found`. */
  lemma FoundAppend(seen: nat -> bool, read: nat -> Decoded<PlayerData>, ps: seq<Player>, x: Player)
    requires Found(seen, read, ps)
    requires ResumeAt(read, ps, |ps|) <= x.pos && seen(x.pos)
    requires NoneSeenIn(seen, ResumeAt(read, ps, |ps|), x.pos)
    requires read(x.pos).outcome == Ok(x.data)
    ensures Found(seen, read, ps + [x])
  {
    var ps' := ps + [x];
    forall i | 0 <= i < |ps'|
      ensures ResumeAt(read, ps', i) <= ps'[i].pos && seen(ps'[i].pos) &&
              NoneSeenIn(seen, ResumeAt(read, ps', i), ps'[i].pos) &&
              read(ps'[i].pos).outcome == Ok(ps'[i].data)
    {
      ResumeAtAppend(read, ps, x, i);
      if i < |ps| {
        assert ps'[i] == ps[i];
      }
    }
  }

  /** Two player lists that both satisfy `Found` agree on their common prefix. */
  lemma {:induction false} FoundAgree(seen: nat -> bool, read: nat -> Decoded<PlayerData>, ps: seq<Player>, qs: seq<Player>, i: nat)
    requires Found(seen, read, ps) && Found(seen, read, qs)
    requires i <= |ps| && i <= |qs|
    ensures ps[..i] == qs[..i]
    ensures ResumeAt(read, ps, i) == ResumeAt(read, qs, i)
  {
    if i > 0 {
      FoundAgree(seen, read, ps, qs, i - 1);
      var x, y := ps[i - 1], qs[i - 1];
      FirstSeenUnique(seen, ResumeAt(read, ps, i - 1), x.pos, y.pos);
      assert ps[..i] == ps[..i - 1] + [x] && qs[..i] == qs[..i - 1] + [y];
    }
  }

  /** The first seen cursor at or after `lo` is unique. */
  lemma FirstSeenUnique(seen: nat -> bool, lo: nat, x: nat, y: nat)
    requires lo <= x && seen(x) && NoneSeenIn(seen, lo, x)
    requires lo <= y && seen(y) && NoneSeenIn(seen, lo, y)
    ensures x == y
  {
    assert x < y ==> !seen(x);
    assert y < x ==> !seen(y);
  }

  /** A complete list is no shorter than any list satisfying `Found`. */
  lemma CompleteIsLongest(seen: nat -> bool, read: nat -> Decoded<PlayerData>, ps: seq<Player>, qs: seq<Player>)
    requires Complete(seen, read, ps) && Found(seen, read, qs)
    ensures |qs| <= |ps|
  {
    if |ps| < |qs| {
      FoundAgree(seen, read, ps, qs, |ps|);
    }
  }

  /** At most one list of players is complete. */
  lemma CompleteIsUnique(seen: nat -> bool, read: nat -> Decoded<PlayerData>, ps: seq<Player>, qs: seq<Player>)
    requires Complete(seen, read, ps) && Complete(seen, read, qs)
    ensures ps == qs
  {
    CompleteIsLongest(seen, read, ps, qs);
    CompleteIsLongest(seen, read, qs, ps);
    FoundAgree(seen, read, ps, qs, |ps|);
    assert ps == ps[..|ps|] && qs == qs[..|qs|];
  }

  /** A run that finds all players never also throws. */
  lemma CompleteExcludesAborted(seen: nat -> bool, read: nat -> Decoded<PlayerData>, ps: seq<Player>, qs: seq<Player>, q: nat)
    requires Complete(seen, read, ps)
    ensures !AbortsAfter(seen, read, qs, q)
  {
    if AbortsAfter(seen, read, qs, q) {
      CompleteIsLongest(seen, read, ps, qs);
      FoundAgree(seen, read, ps, qs, |qs|);
      if |qs| < |ps| {
        FirstSeenUnique(seen, ResumeAt(read, qs, |qs|), ps[|qs|].pos, q);
      }
      assert false;
    }
  }

  /** The outer loop, resumed at a cursor `p` it reaches after finding
      `ps`, returns exactly the players it meets, or throws in the span of
      the next one. */
  lemma {:induction false} ScanMeetsPlayers(seen: nat -> bool, read: nat -> Decoded<PlayerData>, n: nat, p: nat, ps: seq<Player>)
    requires Advances(read) && SeenWithin(seen, n)
    requires Found(seen, read, ps) && 4 <= p && ResumeAt(read, ps, |ps|) <= p
    requires NoneSeenIn(seen, ResumeAt(read, ps, |ps|), p)
    ensures ScanPlayers(seen, read, n, p, ps).Ok? ==> Complete(seen, read, ScanPlayers(seen, read, n, p, ps).value)
    ensures ScanPlayers(seen, read, n, p, ps).OutOfRange? ==> Aborted(seen, read)
    decreases n - p
  {
    var lo := ResumeAt(read, ps, |ps|);
    if !seen(p) {
      assert NoneSeenIn(seen, lo, p + 1);
      if p + 1 < n {
        ScanMeetsPlayers(seen, read, n, p + 1, ps);
      }
    } else {
      var d := read(p);
      if d.outcome.OutOfRange? {
        assert AbortsAfter(seen, read, ps, p);
      } else {
        var x := Player(p, d.outcome.value);
        FoundAppend(seen, read, ps, x);
        var found := ps + [x];
        assert ResumeAt(read, found, |found|) == d.next + 1;
        if d.next + 1 < n {
          ScanMeetsPlayers(seen, read, n, d.next + 1, found);
        }
      }
    }
  }

  /** The outer loop from cursor 4 returns `ps` exactly when `ps` is
      complete, and throws exactly when some player's reader throws. */
  lemma ScanCharacterized(seen: nat -> bool, read: nat -> Decoded<PlayerData>, n: nat, ps: seq<Player>)
    requires Advances(read) && SeenWithin(seen, n)
    ensures ScanPlayers(seen, read, n, 4, []) == Ok(ps) <==> Complete(seen, read, ps)
    ensures ScanPlayers(seen, read, n, 4, []).OutOfRange? <==> Aborted(seen, read)
  {
    assert Found(seen, read, []);
    ScanMeetsPlayers(seen, read, n, 4, []);
    match ScanPlayers(seen, read, n, 4, [])
    case Ok(found) =>
      forall qs: seq<Player>, q: nat
        ensures !AbortsAfter(seen, read, qs, q)
      {
        CompleteExcludesAborted(seen, read, found, qs, q);
      }
      if Complete(seen, read, ps) {
        CompleteIsUnique(seen, read, found, ps);
      }
    case OutOfRange =>
      if Complete(seen, read, ps) {
        var qs: seq<Player>, q: nat :| AbortsAfter(seen, read, qs, q);
        CompleteExcludesAborted(seen, read, ps, qs, q);
      }
  }

  /** What `parse` returns, characterized without running the loop: it
      returns `ps` exactly when `ps` lists, in buffer order, every player
      the outer loop meets (each at the first start-player window after the
      previous span, the loop resuming one byte after the cursor the player
      reader left, so start-player windows inside a span are ignored); it
      throws exactly when the reader of some such player reads past the
      end of the buffer. */
  lemma ParseCharacterized(b: seq<byte>, ps: seq<Player>)
    ensures ParseBuffer(b) == Ok(ps) <==> CompleteParse(b, ps)
    ensures ParseBuffer(b).OutOfRange? <==> AbortedParse(b)
  {
    SpanReaderFits(b);
    ScanCharacterized(StartSeen(b), SpanReader(b), |b|, ps);
  }

  /** A buffer of at most four bytes holds no player, unless it is exactly
      the start-player marker: the first window is compared whatever the
      length, and the reader then stops at once with no field. */
  lemma ShortBuffer(b: seq<byte>)
    requires |b| <= 4
    ensures ParseBuffer(b) == if b == StartPlayer then Ok([Player(4, NoFields)]) else Ok([])
  {
    SpanReaderFits(b);
    assert Window(b, 4) == b;
    if b == StartPlayer {
      assert StartSeen(b)(4);
      ReaderStops(b, 4, NoFields);
      assert SpanReader(b)(4) == Decoded(Ok(NoFields), 5);
      assert ScanPlayers(StartSeen(b), SpanReader(b), |b|, 4, []) == Ok([] + [Player(4, NoFields)]);
      assert [] + [Player(4, NoFields)] == [Player(4, NoFields)];
    } else {
      assert !StartSeen(b)(4);
    }
  }

  /** Marker `m` occupies bytes [i, i+4) of the buffer. */
  predicate MarkerAt(b: seq<byte>, i: nat, m: seq<byte>) {
    i + 4 <= |b| && b[i..i + 4] == m
  }

  /** Player `x` sits right after a start-player marker that ends before
      the last byte of `b` (or at cursor 4), and holds what the player
      reader builds from there. */
  predicate ReadAtMarker(b: seq<byte>, x: Player) {
    4 <= x.pos && (x.pos == 4 || x.pos < |b|) && MarkerAt(b, x.pos - 4, StartPlayer) &&
    ReadPlayerFrom(b, x.pos, NoFields).outcome == Ok(x.data)
  }

  /** Without a start-player marker anywhere, field markers and all other
      bytes are ignored and there is no player. */
  lemma NoStartNoPlayers(b: seq<byte>)
    requires forall i: nat :: !MarkerAt(b, i, StartPlayer)
    ensures ParseBuffer(b) == Ok([])
  {
    forall q: nat | 4 <= q
      ensures !StartSeen(b)(q)
    {
      if q <= |b| {
        assert !MarkerAt(b, q - 4, StartPlayer);
      }
    }
    assert Complete(StartSeen(b), SpanReader(b), []);
    ParseCharacterized(b, []);
  }

  lemma {:induction false} FoundOrdered(seen: nat -> bool, read: nat -> Decoded<PlayerData>, ps: seq<Player>, i: nat, j: nat)
    requires Advances(read) && Found(seen, read, ps)
    requires i < j < |ps|
    ensures ps[i].pos < ps[j].pos
    decreases j - i
  {
    assert ResumeAt(read, ps, j) == read(ps[j - 1].pos).next + 1;
    if i + 1 < j {
      FoundOrdered(seen, read, ps, i, j - 1);
    }
  }

  /** What `Found` says about each player, one player at a time. */
  lemma FoundEach(seen: nat -> bool, read: nat -> Decoded<PlayerData>, ps: seq<Player>, i: nat)
    requires Found(seen, read, ps) && i < |ps|
    ensures seen(ps[i].pos) && read(ps[i].pos).outcome == Ok(ps[i].data)
    ensures 0 < i ==> read(ps[i - 1].pos).next < ps[i].pos
  {
    assert ResumeAt(read, ps, i) <= ps[i].pos;
  }

  /** The players come in buffer order: each sits right after a
      start-player marker (`ReadAtMarker`: never one in the last four bytes
      of a longer buffer) and holds what the reader built from there, and
      each starts after the cursor at which the previous player's reader
      stopped, so markers inside a player's span are skipped. */
  lemma PlayersInOrder(b: seq<byte>, ps: seq<Player>)
    requires ParseBuffer(b) == Ok(ps)
    ensures forall i :: 0 <= i < |ps| ==> ReadAtMarker(b, ps[i])
    ensures forall i :: 0 < i < |ps| ==> ReadPlayerFrom(b, ps[i - 1].pos, NoFields).next < ps[i].pos
    ensures forall i, j :: 0 <= i < j < |ps| ==> ps[i].pos < ps[j].pos
  {
    ParseCharacterized(b, ps);
    FoundPlayers(b, ps);
  }

  /** What `PlayersInOrder` states, for any `Found` list of buffer `b`. */
  lemma FoundPlayers(b: seq<byte>, ps: seq<Player>)
    requires Found(StartSeen(b), SpanReader(b), ps)
    ensures forall i :: 0 <= i < |ps| ==> ReadAtMarker(b, ps[i])
    ensures forall i :: 0 < i < |ps| ==> ReadPlayerFrom(b, ps[i - 1].pos, NoFields).next < ps[i].pos
    ensures forall i, j :: 0 <= i < j < |ps| ==> ps[i].pos < ps[j].pos
  {
    SpanReaderFits(b);
    FoundAscending(StartSeen(b), SpanReader(b), ps);
    forall i | 0 <= i < |ps|
      ensures ReadAtMarker(b, ps[i])
      ensures 0 < i ==> ReadPlayerFrom(b, ps[i - 1].pos, NoFields).next < ps[i].pos
    {
      PlayerFromMarker(b, ps, i);
    }
  }

  /** One player of a `Found` list of buffer `b`, in terms of the bytes. */
  lemma PlayerFromMarker(b: seq<byte>, ps: seq<Player>, i: nat)
    requires Found(StartSeen(b), SpanReader(b), ps) && i < |ps|
    ensures ReadAtMarker(b, ps[i])
    ensures 0 < i ==> ReadPlayerFrom(b, ps[i - 1].pos, NoFields).next < ps[i].pos
  {
    FoundEach(StartSeen(b), SpanReader(b), ps, i);
    var p := ps[i].pos;
    assert StartSeenAt(b, p);
    assert 4 <= p <= |b| && b[p - 4..p] == StartPlayer;
    assert SpanReader(b)(p) == ReadPlayerFrom(b, p, NoFields);
    if 0 < i {
      assert SpanReader(b)(ps[i - 1].pos) == ReadPlayerFrom(b, ps[i - 1].pos, NoFields);
    }
  }

  /** The players of a `Found` list sit at strictly increasing cursors. */
  lemma FoundAscending(seen: nat -> bool, read: nat -> Decoded<PlayerData>, ps: seq<Player>)
    requires Advances(read) && Found(seen, read, ps)
    ensures forall i, j :: 0 <= i < j < |ps| ==> ps[i].pos < ps[j].pos
  {
    forall i, j | 0 <= i < j < |ps|
      ensures ps[i].pos < ps[j].pos
    {
      FoundOrdered(seen, read, ps, i, j);
    }
  }

  /** Once the scan has passed the end of the buffer, a run of unseen
      cursors since the last player makes the list complete. */
  lemma CompleteAtEnd(seen: nat -> bool, read: nat -> Decoded<PlayerData>, n: nat, ps: seq<Player>, p: nat)
    requires SeenWithin(seen, n) && Found(seen, read, ps) && 4 < p && n <= p
    requires NoneSeenIn(seen, ResumeAt(read, ps, |ps|), p)
    ensures Complete(seen, read, ps)
  {
    forall q: nat | ResumeAt(read, ps, |ps|) <= q
      ensures !seen(q)
    {
      if p <= q {
        assert !(q == 4 || q < n);
      }
    }
  }

  /** A cursor that is not seen extends the unseen run. */
  lemma SkipKeeps(seen: nat -> bool, read: nat -> Decoded<PlayerData>, ps: seq<Player>, p: nat)
    requires NoneSeenIn(seen, ResumeAt(read, ps, |ps|), p) && !seen(p)
    ensures NoneSeenIn(seen, ResumeAt(read, ps, |ps|), p + 1)
  {
  }

  /** A seen cursor whose reader returns normally adds its player, and the
      loop resumes one byte after the cursor the reader left. */
  lemma PlayerKeeps(seen: nat -> bool, read: nat -> Decoded<PlayerData>, ps: seq<Player>, p: nat, d: Decoded<PlayerData>)
    requires Found(seen, read, ps) && ResumeAt(read, ps, |ps|) <= p
    requires NoneSeenIn(seen, ResumeAt(read, ps, |ps|), p)
    requires seen(p) && read(p) == d && d.outcome.Ok?
    ensures var found := ps + [Player(p, d.outcome.value)];
            Found(seen, read, found) && ResumeAt(read, found, |found|) == d.next + 1 &&
            NoneSeenIn(seen, ResumeAt(read, found, |found|), d.next + 1)
  {
    FoundAppend(seen, read, ps, Player(p, d.outcome.value));
  }

  /** A seen cursor whose reader throws aborts the run. */
  lemma PlayerThrows(seen: nat -> bool, read: nat -> Decoded<PlayerData>, ps: seq<Player>, p: nat)
    requires Found(seen, read, ps) && ResumeAt(read, ps, |ps|) <= p
    requires NoneSeenIn(seen, ResumeAt(read, ps, |ps|), p)
    requires seen(p) && read(p).outcome.OutOfRange?
    ensures Aborted(seen, read)
  {
    assert AbortsAfter(seen, read, ps, p);
  }

  /** `parse(buffer)`: the outer loop with the buffer's own `seen` and `read`. */
  method Parse(buffer: seq<byte>) returns (r: Outcome<seq<Player>>)
    ensures r == ParseBuffer(buffer)
    ensures r.Ok? ==> CompleteParse(buffer, r.value)
    ensures r.OutOfRange? <==> AbortedParse(buffer)
  {
    SpanReaderFits(buffer);
    forall q: nat | 4 <= q && (q == 4 || q < |buffer|)
      ensures StartSeen(buffer)(q) <==> Window(buffer, q) == StartPlayer
    {
    }
    r := CollectPlayers(buffer, StartSeen(buffer), SpanReader(buffer));
    match r
    case Ok(players) =>
      ParseCharacterized(buffer, players);
    case OutOfRange =>
      ParseCharacterized(buffer, []);
  }

  /** The loop of `parse`: one cursor object is shared, by reference, between
      the outer loop and the player reader, so the outer loop goes on one
      byte after the cursor the reader left behind. `seen` and `read` stand
      for the buffer's start-player windows and player reader, known here
      only through the windows the loop compares and the spans it reads.
      The loop keeps the players found so far as `Found`, with no
      start-player window seen since the last one. */
  method CollectPlayers(buffer: seq<byte>, ghost seen: nat -> bool, ghost read: nat -> Decoded<PlayerData>)
    returns (r: Outcome<seq<Player>>)
    requires SeenWithin(seen, |buffer|) && Advances(read)
    requires forall q: nat {:trigger Window(buffer, q)} :: 4 <= q && (q == 4 || q < |buffer|) ==>
               (seen(q) <==> Window(buffer, q) == StartPlayer)
    requires forall q: nat {:trigger ReadPlayerFrom(buffer, q, NoFields)} :: read(q) == ReadPlayerFrom(buffer, q, NoFields)
    ensures r.Ok? ==> Complete(seen, read, r.value)
    ensures r.OutOfRange? ==> Aborted(seen, read)
  {
    var players: seq<Player> := [];
    var state := new ScanState.Start(buffer);
    var more := true;
    while more
      invariant 4 <= state.pos && (!more ==> 4 < state.pos && |buffer| <= state.pos)
      invariant more ==> state.last4 == Window(buffer, state.pos) && (state.pos == 4 || state.pos < |buffer|)
      invariant Found(seen, read, players) && ResumeAt(read, players, |players|) <= state.pos
      invariant NoneSeenIn(seen, ResumeAt(read, players, |players|), state.pos)
      decreases if more then |buffer| + 5 - state.pos else 0
    {
      var at := state.pos;
      if state.last4 == StartPlayer {
        var data := ReadPlayer(buffer, state);
        if data.OutOfRange? {
          PlayerThrows(seen, read, players, at);
          return OutOfRange;
        }
        PlayerKeeps(seen, read, players, at, Decoded(data, state.pos));
        players := players + [Player(at, data.value)];
      } else {
        SkipKeeps(seen, read, players, at);
      }
      more := Scan(buffer, state);
    }
    CompleteAtEnd(seen, read, |buffer|, players, state.pos);
    r := Ok(players);
  }
}
