/**
  STORE and EXPUNGE one statement at a time (pkg/imap/mailbox.go): each lists the mailbox once and then updates or deletes
  row by row, while other sessions change flags and remove messages.
 */
module ImapRaces {
  import opened Wrappers
  import opened MessageTable
  import opened ImapFlags

  /** The flags column by message id. */
  type Flags = map<nat, Bits>

  /** A command after its listing, with what it listed and how far it has come. */
  datatype Command =
    | Storing(op: FlagsOp, given: Bits, todo: seq<(nat, Bits)>)
    | StoreFailed
    | Expunging(flagged: seq<nat>, done: nat)
    | ExpungeFailed(flagged: seq<nat>, done: nat)

  /** `removedBy` records which command removed a row, None for other sessions; no step reads it. */
  datatype State = State(flags: Flags, lastId: nat, commands: map<nat, Command>, removedBy: map<nat, Option<nat>>)

  datatype Event =
    | BeginStore(command: nat, op: FlagsOp, given: Bits, picked: seq<nat>)
    | StoreNext(command: nat)
    | BeginExpunge(command: nat, listing: seq<nat>)
    | ExpungeNext(command: nat)
    | Change(id: nat, bits: Bits, mask: Bits)
    | Remove(id: nat)
    | Arrive(bits: Bits)

  const Start := State(map[], 0, map[], map[])

  predicate Enabled(s: State, e: Event) {
    match e
    case BeginStore(c, _, _, picked) => c !in s.commands && forall id <- picked :: id in s.flags
    case StoreNext(c) => c in s.commands && s.commands[c].Storing? && s.commands[c].todo != []
    case BeginExpunge(c, listing) =>
      && c !in s.commands && (forall id <- listing :: id in s.flags)
      && (forall i, j :: 0 <= i < j < |listing| ==> listing[i] != listing[j])
    case ExpungeNext(c) => c in s.commands && s.commands[c].Expunging? && s.commands[c].done < |s.commands[c].flagged|
    case Change(id, _, _) => id in s.flags
    case Remove(id) => id in s.flags
    case Arrive(_) => true
  }

  /** The listed rows that are flagged for deletion. */
  function Flagged(flags: Flags, listing: seq<nat>): (flagged: seq<nat>)
    requires forall id <- listing :: id in flags
    ensures forall id <- flagged :: id in listing && flags[id] & FLAG_DELETED != 0
  {
    if listing == [] then []
    else
      var last := listing[|listing| - 1];
      Flagged(flags, listing[..|listing| - 1]) + if flags[last] & FLAG_DELETED != 0 then [last] else []
  }

  /** The picked rows with their flags. */
  function Listed(flags: Flags, picked: seq<nat>): (listed: seq<(nat, Bits)>)
    requires forall id <- picked :: id in flags
    ensures |listed| == |picked| && forall i :: 0 <= i < |picked| ==> listed[i] == (picked[i], flags[picked[i]])
  {
    seq(|picked|, i requires 0 <= i < |picked| => (picked[i], flags[picked[i]]))
  }

  function Under(s: State, c: nat, command: Command): State {
    s.(commands := s.commands[c := command])
  }

  function Removed(s: State, id: nat, who: Option<nat>): State {
    s.(flags := s.flags - {id}, removedBy := s.removedBy[id := who])
  }

  function Apply(s: State, e: Event): State
    requires Enabled(s, e)
  {
    match e
    case BeginStore(c, op, given, picked) => Under(s, c, Storing(op, given, Listed(s.flags, picked)))
    case StoreNext(c) =>
      var Storing(op, given, todo) := s.commands[c];
      var (id, listed) := todo[0];
      if id !in s.flags then Under(s, c, StoreFailed)
      else Under(s, c, Storing(op, given, todo[1..])).(flags := s.flags[id := Combined(op, listed, given)])
    case BeginExpunge(c, listing) => Under(s, c, Expunging(Flagged(s.flags, listing), 0))
    case ExpungeNext(c) =>
      var Expunging(flagged, done) := s.commands[c];
      if flagged[done] !in s.flags then Under(s, c, ExpungeFailed(flagged, done))
      else Under(Removed(s, flagged[done], Some(c)), c, Expunging(flagged, done + 1))
    case Change(id, bits, mask) => s.(flags := s.flags[id := (s.flags[id] & !mask) | (bits & mask)])
    case Remove(id) => Removed(s, id, None)
    case Arrive(bits) => s.(flags := s.flags[s.lastId + 1 := bits], lastId := s.lastId + 1)
  }

  ghost predicate IsRun(states: seq<State>, events: seq<Event>) {
    && |states| == |events| + 1
    && forall i :: 0 <= i < |events| ==> Enabled(states[i], events[i]) && states[i + 1] == Apply(states[i], events[i])
  }

  // ----- STORE -----

  /** What a STORE has still to do stays as listed, and so do its operation and its flags. */
  lemma {:induction false} ListingStays(states: seq<State>, events: seq<Event>, c: nat)
    requires IsRun(states, events) && c in states[0].commands && states[0].commands[c].Storing?
    ensures c in states[|events|].commands
    ensures var first, last := states[0].commands[c], states[|events|].commands[c];
      last.Storing? ==> last.op == first.op && last.given == first.given && forall p <- last.todo :: p in first.todo
    ensures states[|events|].commands[c].Storing? || states[|events|].commands[c].StoreFailed?
  {
    if events != [] {
      var n := |events| - 1;
      ListingStays(states[..n + 1], events[..n], c);
    }
  }

  /**
    Whatever happened since, the row a STORE writes ends up with the flags it had when the STORE listed the mailbox,
    combined with those given.
   */
  lemma StoreWritesItsListing(states: seq<State>, events: seq<Event>, c: nat, op: FlagsOp, given: Bits, picked: seq<nat>)
    requires IsRun(states, events) && |events| >= 2 && events[0] == BeginStore(c, op, given, picked)
    requires events[|events| - 1] == StoreNext(c)
    ensures var before, after := states[|events| - 1], states[|events|];
      var id := before.commands[c].todo[0].0;
      id in states[0].flags &&
      if id in before.flags then
        after == Under(before, c, after.commands[c]).(flags := before.flags[id := Combined(op, states[0].flags[id], given)])
      else after == Under(before, c, StoreFailed)
  {
    var n := |events| - 1;
    var later, es := states[1..n + 1], events[1..n];
    assert forall i :: 0 <= i <= |es| ==> later[i] == states[i + 1];
    assert forall i :: 0 <= i < |es| ==> es[i] == events[i + 1];
    ListingStays(later, es, c);
    assert Enabled(states[0], events[0]) && Enabled(states[n], events[n]);
    var p := states[n].commands[c].todo[0];
    assert p in Listed(states[0].flags, picked);
  }

  /** A flag comes out as if the STORE had been one step exactly if it is one given, or replaced, or was not changed since. */
  lemma AsInOneStepExactly(op: FlagsOp, listed: Bits, now: Bits, given: Bits, f: Flag)
    ensures (Has(Combined(op, listed, given), f) <==> Has(Combined(op, now, given), f)) <==>
      op.SetFlags? || Has(given, f) || (Has(listed, f) <==> Has(now, f))
  {
    OperationsOnSets(op, listed, given, f);
    OperationsOnSets(op, now, given, f);
  }

  /** A flag changed between listing and write keeps its new value exactly if the STORE itself asks for that value. */
  lemma ChangeSurvivesExactly(op: FlagsOp, listed: Bits, now: Bits, given: Bits, f: Flag)
    requires Has(listed, f) != Has(now, f)
    ensures (Has(Combined(op, listed, given), f) <==> Has(now, f)) <==>
      match op
      case SetFlags => Has(given, f) == Has(now, f)
      case AddFlags => Has(given, f) && Has(now, f)
      case RemoveFlags => Has(given, f) && !Has(now, f)
  {
    OperationsOnSets(op, listed, given, f);
  }

  /** A POP3 DELE between the listing and the write of "+FLAGS (\Seen)" is lost. */
  lemma DeleLost(s: State, c: nat, id: nat)
    requires c !in s.commands && id in s.flags && !Has(s.flags[id], Deleted)
    ensures var begun := Apply(s, BeginStore(c, AddFlags, FLAG_SEEN, [id]));
      var deleted := Apply(begun, Change(id, FLAG_DELETED, FLAG_DELETED));
      && Has(deleted.flags[id], Deleted)
      && Enabled(deleted, StoreNext(c)) && id in Apply(deleted, StoreNext(c)).flags
      && !Has(Apply(deleted, StoreNext(c)).flags[id], Deleted)
  {
    var now := s.flags[id];
    assert (now & !FLAG_DELETED) | (FLAG_DELETED & FLAG_DELETED) == now | FLAG_DELETED;
    OperationsOnSets(AddFlags, now, FLAG_DELETED, Deleted);
    OperationsOnSets(AddFlags, now, FLAG_SEEN, Deleted);
  }

  // ----- EXPUNGE -----

  /** Rows that are gone do not come back, and an EXPUNGE has removed just the rows it has passed. */
  ghost predicate CommandOk(s: State, c: nat)
    requires c in s.commands
  {
    var command := s.commands[c];
    command.Expunging? || command.ExpungeFailed? ==>
      && command.done <= |command.flagged|
      && NoRepeats(command.flagged)
      && (forall j :: 0 <= j < |command.flagged| ==> (RemovedByIt(s, c, command.flagged[j]) <==> j < command.done))
      && (forall id <- command.flagged :: id in s.flags || id in s.removedBy)
      && (command.ExpungeFailed? ==> command.done < |command.flagged| && command.flagged[command.done] in s.removedBy)
  }

  ghost predicate RemovedByIt(s: State, c: nat, id: nat) {
    id in s.removedBy && s.removedBy[id] == Some(c)
  }

  ghost predicate Inv(s: State) {
    && (forall id <- s.flags :: id <= s.lastId && id !in s.removedBy)
    && (forall id <- s.removedBy :: id <= s.lastId && (s.removedBy[id].Some? ==> s.removedBy[id].value in s.commands))
    && (forall c <- s.commands :: CommandOk(s, c))
  }

  lemma {:induction false} FlaggedOnce(flags: Flags, listing: seq<nat>)
    requires forall id <- listing :: id in flags
    requires forall i, j :: 0 <= i < j < |listing| ==> listing[i] != listing[j]
    ensures NoRepeats(Flagged(flags, listing))
    ensures forall id <- listing :: flags[id] & FLAG_DELETED != 0 ==> id in Flagged(flags, listing)
  {
    if listing != [] {
      FlaggedOnce(flags, listing[..|listing| - 1]);
    }
  }

  lemma BeginStep(s: State, c: nat, listing: seq<nat>)
    requires Inv(s) && Enabled(s, BeginExpunge(c, listing))
    ensures CommandOk(Apply(s, BeginExpunge(c, listing)), c)
  {
    FlaggedOnce(s.flags, listing);
    assert forall id <- s.removedBy :: s.removedBy[id] != Some(c);
  }

  lemma OwnStep(s: State, c: nat)
    requires Inv(s) && Enabled(s, ExpungeNext(c))
    ensures CommandOk(Apply(s, ExpungeNext(c)), c)
  {
    assert CommandOk(s, c);
    var command := s.commands[c];
    assert command.flagged[command.done] in command.flagged;
  }

  /** Steps of others leave the command as it is, and whatever they remove it has not removed. */
  lemma OtherStep(s: State, e: Event, c: nat)
    requires Inv(s) && Enabled(s, e) && c in s.commands
    requires !(e.ExpungeNext? && e.command == c) && !(e.StoreNext? && e.command == c)
    ensures CommandOk(Apply(s, e), c)
  {
    assert CommandOk(s, c);
    var t := Apply(s, e);
    assert t.commands[c] == s.commands[c];
    assert forall id :: RemovedByIt(t, c, id) <==> RemovedByIt(s, c, id);
    assert forall id :: id in s.flags || id in s.removedBy ==> id in t.flags || id in t.removedBy;
  }

  lemma CommandStep(s: State, e: Event, c: nat)
    requires Inv(s) && Enabled(s, e) && c in Apply(s, e).commands
    ensures CommandOk(Apply(s, e), c)
  {
    hide Inv, Flagged;
    if e.BeginExpunge? && e.command == c {
      BeginStep(s, c, e.listing);
    } else if e.ExpungeNext? && e.command == c {
      OwnStep(s, c);
    } else if c in s.commands && !(e.StoreNext? && e.command == c) {
      OtherStep(s, e, c);
    }
  }

  lemma StepInv(s: State, e: Event)
    requires Inv(s) && Enabled(s, e)
    ensures Inv(Apply(s, e))
  {
    hide CommandOk;
    forall c <- Apply(s, e).commands ensures CommandOk(Apply(s, e), c) {
      CommandStep(s, e, c);
    }
  }

  lemma {:induction false} RunInv(states: seq<State>, events: seq<Event>)
    requires IsRun(states, events) && states[0] == Start
    ensures Inv(states[|events|])
  {
    if events != [] {
      var n := |events| - 1;
      RunInv(states[..n + 1], events[..n]);
      StepInv(states[n], events[n]);
    }
  }

  /**
    An EXPUNGE that is over got through all it listed as flagged if and only if it removed each of those rows itself.
    It stops at the first row somebody else removed, and leaves the ones after that.
   */
  lemma ExpungeEndsExactly(states: seq<State>, events: seq<Event>, c: nat)
    requires IsRun(states, events) && states[0] == Start && c in states[|events|].commands
    requires var command := states[|events|].commands[c];
      command.ExpungeFailed? || (command.Expunging? && command.done == |command.flagged|)
    ensures var s := states[|events|];
      var command := s.commands[c];
      && (command.Expunging? <==> forall id <- command.flagged :: RemovedByIt(s, c, id))
      && (command.ExpungeFailed? ==>
           command.done < |command.flagged| &&
           var first := command.flagged[command.done];
           && first in s.removedBy && s.removedBy[first] != Some(c)
           && (forall j :: 0 <= j < command.done ==> RemovedByIt(s, c, command.flagged[j]))
           && (forall j :: command.done < j < |command.flagged| ==> !RemovedByIt(s, c, command.flagged[j])))
  {
    RunInv(states, events);
    var s := states[|events|];
    var command := s.commands[c];
    assert CommandOk(s, c);
    if command.Expunging? {
      forall id <- command.flagged ensures RemovedByIt(s, c, id) {
        var j :| 0 <= j < |command.flagged| && command.flagged[j] == id;
      }
    } else {
      assert command.flagged[command.done] in command.flagged;
    }
  }

  /** Clearing the flag after the listing does not save a message. */
  lemma UnflaggedTooLate(s: State, c: nat, id: nat)
    requires c !in s.commands && id in s.flags && Has(s.flags[id], Deleted)
    ensures var begun := Apply(s, BeginExpunge(c, [id]));
      var unflagged := Apply(begun, Change(id, 0, FLAG_DELETED));
      && !Has(unflagged.flags[id], Deleted)
      && Enabled(unflagged, ExpungeNext(c)) && id !in Apply(unflagged, ExpungeNext(c)).flags
  {
    assert [id][..0] == [];
    assert Flagged(s.flags, [id]) == [id];
    assert ((s.flags[id] & !FLAG_DELETED) | (0 & FLAG_DELETED)) & FLAG_DELETED == 0;
  }

  // ----- Nobody gets stuck -----

  /** A command with rows left takes its next one; other sessions change, remove and add messages as they like. */
  lemma NobodyWaits(s: State, c: nat, id: nat, bits: Bits, mask: Bits)
    ensures c in s.commands && s.commands[c].Storing? && s.commands[c].todo != [] ==> Enabled(s, StoreNext(c))
    ensures c in s.commands && s.commands[c].Expunging? && s.commands[c].done < |s.commands[c].flagged| ==>
      Enabled(s, ExpungeNext(c))
    ensures id in s.flags ==> Enabled(s, Change(id, bits, mask)) && Enabled(s, Remove(id))
    ensures Enabled(s, Arrive(bits))
  {
  }
}
