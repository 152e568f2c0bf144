/** IMAP flag names and the flag bits of a message row (pkg/imap/mailbox.go). */
module ImapFlags {
  import opened Wrappers
  import opened MessageTable

  datatype Flag = Seen | Answered | Flagged_ | Deleted | Draft

  function Name(f: Flag): string {
    match f
    case Seen => "\\Seen"
    case Answered => "\\Answered"
    case Flagged_ => "\\Flagged"
    case Deleted => "\\Deleted"
    case Draft => "\\Draft"
  }

  function Bit(f: Flag): Bits {
    match f
    case Seen => FLAG_SEEN
    case Answered => FLAG_ANSWERED
    case Flagged_ => FLAG_FLAGGED
    case Deleted => FLAG_DELETED
    case Draft => FLAG_DRAFT
  }

  predicate Has(bits: Bits, f: Flag) {
    bits & Bit(f) != 0
  }

  datatype FlagsOp = SetFlags | AddFlags | RemoveFlags

  function Combined(op: FlagsOp, current: Bits, given: Bits): Bits {
    match op
    case SetFlags => given
    case AddFlags => current | given
    case RemoveFlags => current & !given
  }

  /** Flag operations are replacement, union and difference of flag sets. */
  lemma OperationsOnSets(op: FlagsOp, current: Bits, given: Bits, f: Flag)
    ensures Has(Combined(op, current, given), f) <==>
      match op
      case SetFlags => Has(given, f)
      case AddFlags => Has(current, f) || Has(given, f)
      case RemoveFlags => Has(current, f) && !Has(given, f)
  {
  }

  /** The bits of a list of flag names. */
  ghost predicate BitsOf(bits: Bits, flags: seq<string>) {
    bits & 0xE0 == 0 && forall f :: Has(bits, f) <==> Name(f) in flags
  }

  /** The names of the flags whose bits are set, and nothing else, each once. */
  ghost predicate NamesOf(flags: seq<string>, bits: Bits) {
    && (forall f :: Name(f) in flags <==> Has(bits, f))
    && (forall name <- flags :: exists f :: name == Name(f))
    && NoRepeats(flags)
  }

  method FlagsToBits(flags: seq<string>) returns (bits: Bits)
    ensures BitsOf(bits, flags)
  {
    bits := 0;
    for i := 0 to |flags|
      invariant forall f :: Has(bits, f) <==> Name(f) in flags[..i]
      invariant bits & 0xE0 == 0
    {
      var name, before := flags[i], bits;
      assert flags[..i + 1] == flags[..i] + [name];
      if name == "\\Seen" {
        bits := AddBit(bits, Seen);
      } else if name == "\\Answered" {
        bits := AddBit(bits, Answered);
      } else if name == "\\Flagged" {
        bits := AddBit(bits, Flagged_);
      } else if name == "\\Deleted" {
        bits := AddBit(bits, Deleted);
      } else if name == "\\Draft" {
        bits := AddBit(bits, Draft);
      }
    }
    assert flags[..|flags|] == flags;
  }

  function AddBit(bits: Bits, f: Flag): (r: Bits)
    ensures forall g :: Has(r, g) <==> Has(bits, g) || g == f
    ensures bits & 0xE0 == 0 ==> r & 0xE0 == 0
  {
    OperationsOnSets(AddFlags, bits, Bit(f), Seen);
    bits | Bit(f)
  }

  /** Of the flags dealt with so far, the names of those set, each once. */
  ghost predicate Lists(flags: seq<string>, bits: Bits, done: set<Flag>) {
    && (forall f :: Name(f) in flags <==> f in done && Has(bits, f))
    && (forall name <- flags :: exists f :: name == Name(f))
    && NoRepeats(flags)
  }

  lemma ListsNext(flags: seq<string>, bits: Bits, done: set<Flag>, f: Flag)
    requires Lists(flags, bits, done) && f !in done
    ensures Lists(if Has(bits, f) then flags + [Name(f)] else flags, bits, done + {f})
  {
    hide Has;
  }

  lemma ListsNothing(bits: Bits)
    ensures Lists([], bits, {})
  {
  }

  lemma ListsAll(flags: seq<string>, bits: Bits, done: set<Flag>)
    requires Lists(flags, bits, done)
    requires Seen in done && Answered in done && Flagged_ in done && Deleted in done && Draft in done
    ensures NamesOf(flags, bits)
  {
    hide Has, Name;
    forall f ensures Name(f) in flags <==> Has(bits, f) {
      match f
      case Seen => assert f in done;
      case Answered => assert f in done;
      case Flagged_ => assert f in done;
      case Deleted => assert f in done;
      case Draft => assert f in done;
    }
  }

  method FlagsToIMAP(bits: Bits) returns (flags: seq<string>)
    ensures NamesOf(flags, bits)
  {
    hide Lists, Name, NamesOf;
    flags := [];
    ghost var done: set<Flag> := {};
    ListsNothing(bits);
    ListsNext(flags, bits, done, Seen);
    done := done + {Seen};
    if bits & FLAG_SEEN != 0 {
      flags := flags + [Name(Seen)];
    }
    ListsNext(flags, bits, done, Answered);
    done := done + {Answered};
    if bits & FLAG_ANSWERED != 0 {
      flags := flags + [Name(Answered)];
    }
    ListsNext(flags, bits, done, Flagged_);
    done := done + {Flagged_};
    if bits & FLAG_FLAGGED != 0 {
      flags := flags + [Name(Flagged_)];
    }
    ListsNext(flags, bits, done, Deleted);
    done := done + {Deleted};
    if bits & FLAG_DELETED != 0 {
      flags := flags + [Name(Deleted)];
    }
    ListsNext(flags, bits, done, Draft);
    done := done + {Draft};
    if bits & FLAG_DRAFT != 0 {
      flags := flags + [Name(Draft)];
    }
    ListsAll(flags, bits, done);
  }

  /** Bits without other flags' are determined by the flags they have. */
  lemma FlagsDetermineBits(a: Bits, b: Bits)
    requires a & 0xE0 == 0 && b & 0xE0 == 0
    requires forall f :: Has(a, f) <==> Has(b, f)
    ensures a == b
  {
    assert Has(a, Seen) == Has(b, Seen) && Has(a, Answered) == Has(b, Answered) && Has(a, Flagged_) == Has(b, Flagged_);
    assert Has(a, Deleted) == Has(b, Deleted) && Has(a, Draft) == Has(b, Draft);
  }

  /** Listing a row's flags and reading the names back gives the row's bits, less any that are no flag's. */
  lemma BitsRoundTrip(bits: Bits, flags: seq<string>, again: Bits)
    requires NamesOf(flags, bits) && BitsOf(again, flags)
    ensures again == bits & 0x1F
  {
    forall f ensures Has(again, f) <==> Has(bits & 0x1F, f) {
      FlagBitsAre1F(bits, f);
    }
    NoOtherBits(bits);
    FlagsDetermineBits(again, bits & 0x1F);
  }

  /** Reading a list of names and listing the flags gives the names known among them, each once. */
  lemma NamesRoundTrip(flags: seq<string>, bits: Bits, again: seq<string>)
    requires BitsOf(bits, flags) && NamesOf(again, bits)
    ensures NoRepeats(again)
    ensures forall name :: name in again <==> name in flags && exists f :: name == Name(f)
  {
    forall name ensures name in again <==> name in flags && exists f :: name == Name(f) {
      if f :| name == Name(f) {
        assert name in again <==> Has(bits, f);
      }
    }
  }

  lemma FlagBitsAre1F(bits: Bits, f: Flag)
    ensures Has(bits & 0x1F, f) <==> Has(bits, f)
  {
    match f
    case _ =>
  }

  lemma NoOtherBits(bits: Bits)
    ensures (bits & 0x1F) & 0xE0 == 0
  {
  }
}
