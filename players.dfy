/** `readPlayer` of parser.js: from a start-player marker, scan on until an
    end-player window or the end of the buffer, and record every password,
    name and current-turn field whose marker goes by. */
module Players {
  import opened Bytes
  import opened Scanner
  import opened Markers
  import opened Decoders

  /** A recorded field: the cursor just after its marker (where the value's
      header starts) and what the decoder returned there. */
  datatype Field<+T> = Field(pos: nat, value: T)

  /** The record `readPlayer` builds. A field is absent until its marker is
      seen; a string field whose decoder failed holds `None` (`value: null`). */
  datatype PlayerData = PlayerData(
    password: Option<Field<Option<seq<byte>>>>,
    name: Option<Field<Option<seq<byte>>>>,
    isCurrentTurn: Option<Field<bool>>)

  const NoFields := PlayerData(None, None, None)

  /** The reader's work at cursor `q` once the window there is known not to
      be the end-player marker: a field marker runs its decoder from `q` and
      records the result under that field (a throw ends the reader), any
      other window changes nothing. */
  function FieldStep(b: seq<byte>, q: nat, f: PlayerData): (r: Decoded<PlayerData>)
    ensures q <= r.next
  {
    var w := Window(b, q);
    if w == PlayerPassword then
      var d := DecodeString(b, q);
      match d.outcome
      case OutOfRange => Decoded(OutOfRange, d.next)
      case Ok(v) => Decoded(Ok(f.(password := Some(Field(q, v)))), d.next)
    else if w == PlayerName then
      var d := DecodeString(b, q);
      match d.outcome
      case OutOfRange => Decoded(OutOfRange, d.next)
      case Ok(v) => Decoded(Ok(f.(name := Some(Field(q, v)))), d.next)
    else if w == PlayerCurrentTurn then
      var d := DecodeBoolean(b, q);
      match d.outcome
      case OutOfRange => Decoded(OutOfRange, d.next)
      case Ok(v) => Decoded(Ok(f.(isCurrentTurn := Some(Field(q, v)))), d.next)
    else Decoded(Ok(f), q)
  }

  /** Field marker `m` sits at cursor `q`, strictly inside the span (p, e). */
  ghost predicate MarkedAt(b: seq<byte>, p: nat, e: nat, q: nat, m: seq<byte>) {
    p < q < e && q < |b| && Window(b, q) == m
  }

  /** Every field of `g` is either the one of `f` or was recorded inside the
      span (p, e) at its own marker, with what its decoder returned there. */
  ghost predicate FieldsFrom(b: seq<byte>, p: nat, e: nat, f: PlayerData, g: PlayerData) {
    (g.password == f.password ||
      (g.password.Some? && MarkedAt(b, p, e, g.password.value.pos, PlayerPassword) &&
       DecodeString(b, g.password.value.pos).outcome == Ok(g.password.value.value))) &&
    (g.name == f.name ||
      (g.name.Some? && MarkedAt(b, p, e, g.name.value.pos, PlayerName) &&
       DecodeString(b, g.name.value.pos).outcome == Ok(g.name.value.value))) &&
    (g.isCurrentTurn == f.isCurrentTurn ||
      (g.isCurrentTurn.Some? && MarkedAt(b, p, e, g.isCurrentTurn.value.pos, PlayerCurrentTurn) &&
       DecodeBoolean(b, g.isCurrentTurn.value.pos).outcome == Ok(g.isCurrentTurn.value.value)))
  }

  /** The loop of `readPlayer`, resumed with cursor `p` and record `f`: each
      round scans one byte on, stops at an end-player window or at the end
      of the buffer (returning the record so far, without error), and
      otherwise does `FieldStep` there. The reader always moves the cursor,
      and stops without a throw only at an end-player window or past the
      buffer. */
  function ReadPlayerFrom(b: seq<byte>, p: nat, f: PlayerData): (r: Decoded<PlayerData>)
    ensures p < r.next
    ensures r.outcome.Ok? ==> |b| <= r.next || Window(b, r.next) == EndPlayer
    decreases |b| - p
  {
    var q := p + 1;
    if |b| <= q || Window(b, q) == EndPlayer then Decoded(Ok(f), q)
    else
      var s := FieldStep(b, q, f);
      match s.outcome
      case OutOfRange => s
      case Ok(g) => ReadPlayerFrom(b, s.next, g)
  }

  /** The window `readPlayer` leaves behind: a normal return inside the
      buffer leaves it on the end-player marker, a throw leaves it on the
      field marker whose decoder threw. */
  predicate StopWindow(b: seq<byte>, r: Outcome<PlayerData>, pos: nat, last4: seq<byte>) {
    (r.Ok? && pos < |b| ==> last4 == EndPlayer) &&
    (r.OutOfRange? ==> last4 == PlayerPassword || last4 == PlayerName || last4 == PlayerCurrentTurn)
  }

  /** `readPlayer(buffer, state)`: the cursor object is shared with the
      caller, so the caller resumes from wherever this loop leaves it. */
  method ReadPlayer(buffer: seq<byte>, state: ScanState) returns (r: Outcome<PlayerData>)
    requires state.pos >= 4
    modifies state
    ensures Decoded(r, state.pos) == ReadPlayerFrom(buffer, old(state.pos), NoFields)
    ensures StopWindow(buffer, r, state.pos, state.last4)
  {
    var result := NoFields;
    ghost var before := state.pos;
    var more := Scan(buffer, state);
    while more && state.last4 != EndPlayer
      invariant 4 <= before && state.pos == before + 1
      invariant more ==> state.pos < |buffer| && state.last4 == Window(buffer, state.pos)
      invariant !more ==> |buffer| <= state.pos
      invariant ReadPlayerFrom(buffer, old(state.pos), NoFields) == ReadPlayerFrom(buffer, before, result)
      decreases |buffer| - state.pos
    {
      var at := state.pos;
      ghost var incoming := result;
      if state.last4 == PlayerPassword {
        var value := ReadString(buffer, state);
        if value.OutOfRange? {
          assert FieldStep(buffer, at, incoming) == Decoded(OutOfRange, state.pos);
          ReaderThrows(buffer, before, incoming);
          return OutOfRange;
        }
        result := result.(password := Some(Field(at, value.value)));
      } else if state.last4 == PlayerName {
        var value := ReadString(buffer, state);
        if value.OutOfRange? {
          assert FieldStep(buffer, at, incoming) == Decoded(OutOfRange, state.pos);
          ReaderThrows(buffer, before, incoming);
          return OutOfRange;
        }
        result := result.(name := Some(Field(at, value.value)));
      } else if state.last4 == PlayerCurrentTurn {
        var value := ReadBoolean(buffer, state);
        if value.OutOfRange? {
          assert FieldStep(buffer, at, incoming) == Decoded(OutOfRange, state.pos);
          ReaderThrows(buffer, before, incoming);
          return OutOfRange;
        }
        result := result.(isCurrentTurn := Some(Field(at, value.value)));
      }
      assert FieldStep(buffer, at, incoming) == Decoded(Ok(result), state.pos);
      ReaderRecords(buffer, before, incoming);
      before := state.pos;
      more := Scan(buffer, state);
    }
    ReaderStops(buffer, before, result);
    r := Ok(result);
  }

  /** The reader returns the record as it is at the end of the buffer or at
      an end-player window. */
  lemma ReaderStops(b: seq<byte>, p: nat, f: PlayerData)
    requires |b| <= p + 1 || Window(b, p + 1) == EndPlayer
    ensures ReadPlayerFrom(b, p, f) == Decoded(Ok(f), p + 1)
  {
  }

  /** The reader at a field marker records the field and goes on from where
      its decoder stopped. */
  lemma ReaderRecords(b: seq<byte>, p: nat, f: PlayerData)
    requires p + 1 < |b| && Window(b, p + 1) != EndPlayer
    requires FieldStep(b, p + 1, f).outcome.Ok?
    ensures ReadPlayerFrom(b, p, f) == ReadPlayerFrom(b, FieldStep(b, p + 1, f).next, FieldStep(b, p + 1, f).outcome.value)
  {
  }

  /** A decoder that throws ends the reader with that throw. */
  lemma ReaderThrows(b: seq<byte>, p: nat, f: PlayerData)
    requires p + 1 < |b| && Window(b, p + 1) != EndPlayer
    requires FieldStep(b, p + 1, f).outcome.OutOfRange?
    ensures ReadPlayerFrom(b, p, f) == FieldStep(b, p + 1, f)
  {
  }

  /** One step records at most the field whose marker is at `q`. */
  lemma FieldStepFields(b: seq<byte>, q: nat, f: PlayerData)
    requires 0 < q
    requires FieldStep(b, q, f).outcome.Ok?
    ensures FieldsFrom(b, q - 1, FieldStep(b, q, f).next + 1, f, FieldStep(b, q, f).outcome.value)
  {
  }

  /** Widening the span and chaining two steps keep `FieldsFrom`. */
  lemma FieldsFromChain(b: seq<byte>, p: nat, m: nat, e: nat, f: PlayerData, g: PlayerData, h: PlayerData)
    requires p <= m && FieldsFrom(b, p, e, f, g) && FieldsFrom(b, m, e, g, h)
    ensures FieldsFrom(b, p, e, f, h)
  {
  }

  lemma FieldsFromWiden(b: seq<byte>, p: nat, e: nat, e': nat, f: PlayerData, g: PlayerData)
    requires e <= e' && FieldsFrom(b, p, e, f, g)
    ensures FieldsFrom(b, p, e', f, g)
  {
  }

  /** Every field the reader returns either came in with `f` or was decoded
      at its own marker strictly inside the span it scanned; in particular a
      field, once recorded, is never removed again. */
  lemma {:induction false} RecordedFields(b: seq<byte>, p: nat, f: PlayerData)
    requires ReadPlayerFrom(b, p, f).outcome.Ok?
    ensures FieldsFrom(b, p, ReadPlayerFrom(b, p, f).next, f, ReadPlayerFrom(b, p, f).outcome.value)
    decreases |b| - p
  {
    var q := p + 1;
    if |b| <= q || Window(b, q) == EndPlayer {
    } else {
      var s := FieldStep(b, q, f);
      var g := s.outcome.value;
      var e := ReadPlayerFrom(b, p, f).next;
      assert ReadPlayerFrom(b, p, f) == ReadPlayerFrom(b, s.next, g);
      FieldStepFields(b, q, f);
      FieldsFromWiden(b, p, s.next + 1, e, f, g);
      RecordedFields(b, s.next, g);
      FieldsFromChain(b, p, s.next, e, f, g, ReadPlayerFrom(b, p, f).outcome.value);
    }
  }

  // ----- which windows the reader compares, and which marker a field comes from -----

  /** The cursors at which the reader resumed from `p` compares its window
      with the markers, in order: every cursor it scans to, up to and
      including the end-player window or the field whose decoder throws. */
  ghost function Inspected(b: seq<byte>, p: nat): seq<nat>
    decreases |b| - p
  {
    var q := p + 1;
    if |b| <= q then []
    else if Window(b, q) == EndPlayer then [q]
    else
      var s := FieldStep(b, q, NoFields);
      if s.outcome.OutOfRange? then [q] else [q] + Inspected(b, s.next)
  }

  /** The reader compares its window at the cursor just after `p`, and after
      each compared cursor at the one just after where that cursor's step
      left it: it compares every cursor that no decoder consumed. */
  lemma {:induction false} InspectedSteps(b: seq<byte>, p: nat)
    ensures var qs := Inspected(b, p);
            (|qs| > 0 ==> qs[0] == p + 1) &&
            (forall i :: 0 <= i < |qs| - 1 ==> qs[i + 1] == FieldStep(b, qs[i], NoFields).next + 1)
    decreases |b| - p
  {
    var q := p + 1;
    if |b| <= q || Window(b, q) == EndPlayer {
    } else {
      var s := FieldStep(b, q, NoFields);
      if s.outcome.Ok? {
        var rest := Inspected(b, s.next);
        var qs := [q] + rest;
        assert Inspected(b, p) == qs;
        InspectedSteps(b, s.next);
        forall i | 0 <= i < |qs| - 1
          ensures qs[i + 1] == FieldStep(b, qs[i], NoFields).next + 1
        {
          if i > 0 {
            assert qs[i + 1] == rest[i] && qs[i] == rest[i - 1];
          }
        }
      }
    }
  }

  /** The fields already in the record do not steer the reader. */
  lemma FieldStepControl(b: seq<byte>, q: nat, f: PlayerData)
    ensures FieldStep(b, q, f).next == FieldStep(b, q, NoFields).next
    ensures FieldStep(b, q, f).outcome.Ok? == FieldStep(b, q, NoFields).outcome.Ok?
  {
  }

  /** Unfolding one round of the reader in terms of `FieldStep`. */
  lemma ReadPlayerRound(b: seq<byte>, p: nat, f: PlayerData)
    requires p + 1 < |b| && Window(b, p + 1) != EndPlayer
    ensures var s := FieldStep(b, p + 1, f);
            ReadPlayerFrom(b, p, f) == if s.outcome.OutOfRange? then s else ReadPlayerFrom(b, s.next, s.outcome.value)
    ensures var s := FieldStep(b, p + 1, NoFields);
            Inspected(b, p) == if s.outcome.OutOfRange? then [p + 1] else [p + 1] + Inspected(b, s.next)
  {
  }

  /** One round of the reader that does not stop at once: either the
      decoder at p+1 throws, which ends the reader, or the reader goes on
      from cursor `n` with record `g1`. */
  lemma Round(b: seq<byte>, p: nat, f: PlayerData) returns (n: nat, g1: PlayerData, threw: bool)
    requires p + 1 < |b| && Window(b, p + 1) != EndPlayer
    ensures p < n
    ensures threw ==> ReadPlayerFrom(b, p, f).outcome.OutOfRange? && Inspected(b, p) == [p + 1] &&
                      FieldStep(b, p + 1, NoFields).outcome.OutOfRange?
    ensures !threw ==> ReadPlayerFrom(b, p, f) == ReadPlayerFrom(b, n, g1) && Inspected(b, p) == [p + 1] + Inspected(b, n)
    ensures !threw ==> FieldStep(b, p + 1, f) == Decoded(Ok(g1), n)
  {
    var s := FieldStep(b, p + 1, f);
    FieldStepControl(b, p + 1, f);
    ReadPlayerRound(b, p, f);
    n, threw := s.next, s.outcome.OutOfRange?;
    g1 := if threw then f else s.outcome.value;
  }

  /** The field of marker `m` after one step: set from the decoder when the
      window is `m`, untouched otherwise. */
  lemma FieldStepSets(b: seq<byte>, q: nat, f: PlayerData, m: seq<byte>)
    requires m == PlayerPassword || m == PlayerName || m == PlayerCurrentTurn
    requires FieldStep(b, q, f).outcome.Ok?
    ensures var g := FieldStep(b, q, f).outcome.value;
            if Window(b, q) == m then DecodeField(b, q, m).Ok? && FieldOf(g, m) == Some(Field(q, DecodeField(b, q, m).value))
            else FieldOf(g, m) == FieldOf(f, m)
  {
  }

  /** The reader compares windows at increasing cursors inside the span
      it scans, all of them inside the buffer. */
  lemma {:induction false} InspectedInSpan(b: seq<byte>, p: nat, f: PlayerData)
    ensures var qs := Inspected(b, p);
            (forall i :: 0 <= i < |qs| ==> p < qs[i] < |b| && qs[i] <= ReadPlayerFrom(b, p, f).next) &&
            (forall i, j :: 0 <= i < j < |qs| ==> qs[i] < qs[j])
    decreases |b| - p
  {
    var q := p + 1;
    if |b| <= q || Window(b, q) == EndPlayer {
    } else {
      var n, g1, threw := Round(b, p, f);
      if !threw {
        InspectedInSpan(b, n, g1);
        PrependAscending(q, Inspected(b, n), |b|, ReadPlayerFrom(b, p, f).next);
      }
    }
  }

  /** A cursor below every cursor of an ascending list in [.., hi) keeps the
      list ascending and in range when put in front. */
  lemma PrependAscending(q: nat, rest: seq<nat>, hi: nat, top: nat)
    requires q < hi && q <= top
    requires forall i :: 0 <= i < |rest| ==> q < rest[i] < hi && rest[i] <= top
    requires forall i, j :: 0 <= i < j < |rest| ==> rest[i] < rest[j]
    ensures var qs := [q] + rest;
            (forall i :: 0 <= i < |qs| ==> q <= qs[i] < hi && qs[i] <= top) &&
            (forall i, j :: 0 <= i < j < |qs| ==> qs[i] < qs[j])
  {
    var qs := [q] + rest;
    forall i | 1 <= i < |qs| ensures qs[i] == rest[i - 1] {
    }
  }

  /** Putting a non-end window in front keeps "no end-player window before
      the last" and "no end-player window at all", and keeps the last cursor. */
  lemma NoEndShift(b: seq<byte>, q: nat, rest: seq<nat>)
    requires Window(b, q) != EndPlayer
    ensures var qs := [q] + rest;
            ((forall i :: 0 <= i < |rest| - 1 ==> Window(b, rest[i]) != EndPlayer) ==>
               forall i :: 0 <= i < |qs| - 1 ==> Window(b, qs[i]) != EndPlayer) &&
            ((forall i :: 0 <= i < |rest| ==> Window(b, rest[i]) != EndPlayer) ==>
               forall i :: 0 <= i < |qs| ==> Window(b, qs[i]) != EndPlayer) &&
            (|rest| > 0 ==> qs[|qs| - 1] == rest[|rest| - 1])
  {
    var qs := [q] + rest;
    forall i | 1 <= i < |qs| ensures qs[i] == rest[i - 1] {
    }
  }

  /** No window the reader compares before its last one is the end-player
      marker. A reader that returns normally before the buffer end stops at
      the first end-player window; one that runs past the end has seen none. */
  lemma {:induction false} InspectedStop(b: seq<byte>, p: nat, f: PlayerData)
    ensures var qs := Inspected(b, p);
            var r := ReadPlayerFrom(b, p, f);
            (forall i :: 0 <= i < |qs| - 1 ==> Window(b, qs[i]) != EndPlayer) &&
            (r.outcome.Ok? && r.next < |b| ==>
               |qs| > 0 && qs[|qs| - 1] == r.next && Window(b, r.next) == EndPlayer) &&
            (r.outcome.Ok? && |b| <= r.next ==> forall i :: 0 <= i < |qs| ==> Window(b, qs[i]) != EndPlayer)
    decreases |b| - p
  {
    var q := p + 1;
    if |b| <= q || Window(b, q) == EndPlayer {
    } else {
      var n, g1, threw := Round(b, p, f);
      if !threw {
        InspectedStop(b, n, g1);
        var rest := Inspected(b, n);
        assert Inspected(b, p) == [q] + rest;
        NoEndShift(b, q, rest);
      }
    }
  }

  lemma LastCons(q: nat, rest: seq<nat>)
    requires |rest| > 0
    ensures ([q] + rest)[|[q] + rest| - 1] == rest[|rest| - 1]
  {
  }

  /** A reader that throws stops at a field marker, not the end-player
      marker, whose decoder threw. */
  lemma {:induction false} InspectedThrow(b: seq<byte>, p: nat, f: PlayerData)
    requires ReadPlayerFrom(b, p, f).outcome.OutOfRange?
    ensures var qs := Inspected(b, p);
            |qs| > 0 && Window(b, qs[|qs| - 1]) != EndPlayer &&
            FieldStep(b, qs[|qs| - 1], NoFields).outcome.OutOfRange?
    decreases |b| - p
  {
    var q := p + 1;
    if |b| <= q || Window(b, q) == EndPlayer {
      assert false;
    } else {
      var n, g1, threw := Round(b, p, f);
      if threw {
        assert Inspected(b, p)[0] == q;
      } else {
        InspectedThrow(b, n, g1);
        LastCons(p + 1, Inspected(b, n));
        assert Inspected(b, p) == [p + 1] + Inspected(b, n);
      }
    }
  }

  /** A field's value seen without its type: the text (or null) of a
      password or name, or the flag of the current turn. */
  datatype FieldValue = Text(text: Option<seq<byte>>) | Flag(flag: bool)

  /** The field of `g` that marker `m` sets, if it is set. */
  function FieldOf(g: PlayerData, m: seq<byte>): Option<Field<FieldValue>> {
    if m == PlayerPassword then
      (if g.password.Some? then Some(Field(g.password.value.pos, Text(g.password.value.value))) else None)
    else if m == PlayerName then
      (if g.name.Some? then Some(Field(g.name.value.pos, Text(g.name.value.value))) else None)
    else if m == PlayerCurrentTurn then
      (if g.isCurrentTurn.Some? then Some(Field(g.isCurrentTurn.value.pos, Flag(g.isCurrentTurn.value.value))) else None)
    else None
  }

  /** What the decoder that marker `m` calls for returns at cursor `q`. */
  function DecodeField(b: seq<byte>, q: nat, m: seq<byte>): Outcome<FieldValue> {
    if m == PlayerCurrentTurn then
      match DecodeBoolean(b, q).outcome
      case OutOfRange => OutOfRange
      case Ok(v) => Ok(Flag(v))
    else
      match DecodeString(b, q).outcome
      case OutOfRange => OutOfRange
      case Ok(v) => Ok(Text(v))
  }

  /** Over the cursors `qs`, `after` is `before` when no cursor is a hit,
      and otherwise the value `val` gives at the last hit, recorded there. */
  ghost predicate LastOf<V>(hit: nat -> bool, val: nat -> V, qs: seq<nat>, before: Option<Field<V>>, after: Option<Field<V>>) {
    ((forall i :: 0 <= i < |qs| ==> !hit(qs[i])) ==> after == before) &&
    (forall i :: 0 <= i < |qs| && hit(qs[i]) && (forall j :: i < j < |qs| ==> !hit(qs[j])) ==>
       after == Some(Field(qs[i], val(qs[i]))))
  }

  /** `LastOf` extends to one more cursor in front. */
  lemma LastOfCons<V>(hit: nat -> bool, val: nat -> V, q: nat, rest: seq<nat>,
                      before: Option<Field<V>>, mid: Option<Field<V>>, after: Option<Field<V>>)
    requires LastOf(hit, val, rest, mid, after)
    requires hit(q) ==> mid == Some(Field(q, val(q)))
    requires !hit(q) ==> mid == before
    ensures LastOf(hit, val, [q] + rest, before, after)
  {
    var qs := [q] + rest;
    assert qs[0] == q;
    forall j | 0 <= j < |rest| ensures rest[j] == qs[j + 1] {
    }
  }

  /** The field of `g` under marker `m`, its value seen as a decoder outcome. */
  function Recorded(g: PlayerData, m: seq<byte>): Option<Field<Outcome<FieldValue>>> {
    match FieldOf(g, m)
    case None => None
    case Some(fld) => Some(Field(fld.pos, Ok(fld.value)))
  }

  function HitsMarker(b: seq<byte>, m: seq<byte>): nat -> bool {
    (q: nat) => Window(b, q) == m
  }

  function Decoder(b: seq<byte>, m: seq<byte>): nat -> Outcome<FieldValue> {
    (q: nat) => DecodeField(b, q, m)
  }

  /** Over the compared cursors `qs`, the field of marker `m` in `g` is
      the one decoded at the last cursor whose window is `m`, and is the
      field of `f` when no window is `m`. */
  ghost predicate LastWins(b: seq<byte>, m: seq<byte>, qs: seq<nat>, f: PlayerData, g: PlayerData) {
    LastOf(HitsMarker(b, m), Decoder(b, m), qs, Recorded(f, m), Recorded(g, m))
  }

  /** A field marker seen by the reader sets its field even when the
      decoder returns null, and a later occurrence of the same marker
      overwrites an earlier one: a field comes from the last of its markers
      the reader compared, and a field with no such marker keeps the value
      it came in with. */
  lemma {:induction false} LastMarkerWins(b: seq<byte>, p: nat, f: PlayerData, m: seq<byte>)
    requires m == PlayerPassword || m == PlayerName || m == PlayerCurrentTurn
    requires ReadPlayerFrom(b, p, f).outcome.Ok?
    ensures LastWins(b, m, Inspected(b, p), f, ReadPlayerFrom(b, p, f).outcome.value)
    decreases |b| - p
  {
    var q := p + 1;
    if |b| <= q || Window(b, q) == EndPlayer {
      assert forall i :: 0 <= i < |Inspected(b, p)| ==> !HitsMarker(b, m)(Inspected(b, p)[i]);
    } else {
      var n, g1 := RoundFor(b, p, f, m);
      LastMarkerWins(b, n, g1, m);
      LastOfCons(HitsMarker(b, m), Decoder(b, m), q, Inspected(b, n),
                 Recorded(f, m), Recorded(g1, m), Recorded(ReadPlayerFrom(b, p, f).outcome.value, m));
    }
  }

  /** One normal round of the reader, seen from marker `m`'s field: the
      reader goes on from cursor `n` with record `g1`, and `g1` holds the
      field decoded at p+1 if the window there is `m`. */
  lemma RoundFor(b: seq<byte>, p: nat, f: PlayerData, m: seq<byte>) returns (n: nat, g1: PlayerData)
    requires m == PlayerPassword || m == PlayerName || m == PlayerCurrentTurn
    requires ReadPlayerFrom(b, p, f).outcome.Ok?
    requires p + 1 < |b| && Window(b, p + 1) != EndPlayer
    ensures p < n && ReadPlayerFrom(b, p, f) == ReadPlayerFrom(b, n, g1)
    ensures Inspected(b, p) == [p + 1] + Inspected(b, n)
    ensures HitsMarker(b, m)(p + 1) ==> Recorded(g1, m) == Some(Field(p + 1, Decoder(b, m)(p + 1)))
    ensures !HitsMarker(b, m)(p + 1) ==> Recorded(g1, m) == Recorded(f, m)
  {
    var threw;
    n, g1, threw := Round(b, p, f);
    assert !threw && FieldStep(b, p + 1, f) == Decoded(Ok(g1), n);
    FieldStepSets(b, p + 1, f, m);
    assert HitsMarker(b, m)(p + 1) == (Window(b, p + 1) == m);
    if Window(b, p + 1) == m {
      assert Decoder(b, m)(p + 1) == DecodeField(b, p + 1, m);
    }
  }
}
