/** The bytes on which the parser does not come to an end, is stopped by an assertion, or copies a string that
    does not end in its field. */
module DhcpUnended {

  import opened BitStreams
  import opened Bits
  import opened DhcpCodec
  import opened DhcpParser
  import opened DhcpRoundTrip
  import opened Lists

  // ------------------------------------------------------------------ the outcome of any bytes

  /** Both strings end within their fields. */
  ghost predicate StringsEnd(b: seq<Byte>) {
    0 in Window(b, 44, 64) && 0 in Window(b, 108, 128)
  }

  ghost predicate AllReadable(es: seq<Entry>) {
    forall i :: 0 <= i < |es| ==> Readable(es[i])
  }

  /** No assertion on the size of an option fails. */
  ghost predicate AllPass(es: seq<Entry>) {
    forall i :: 0 <= i < |es| ==> Passes(es[i])
  }

  ghost predicate Passes(e: Entry) {
    Readable(e) && Accepted(e)
  }

  lemma {:induction false} FinishedOutcome(es: seq<Entry>, ended: bool, rest: seq<Byte>, p: Progress)
    requires AllReadable(es)
    ensures Finished(es, ended, rest, p).Endless? <==> !ended && AllPass(es)
    ensures Finished(es, ended, rest, p).Parsed? <==> ended && AllPass(es)
    ensures Finished(es, ended, rest, p).Refused? <==> !AllPass(es)
    decreases |es|
  {
    if es != [] {
      if Accepted(es[0]) {
        FinishedOutcome(es[1..], ended, rest, Advanced(p, es[0]));
        FirstPasses(es);
      } else {
        assert !Passes(es[0]);
      }
    }
  }

  lemma FirstPasses(es: seq<Entry>)
    requires es != [] && Passes(es[0])
    ensures AllPass(es) <==> AllPass(es[1..])
  {
    if AllPass(es[1..]) {
      forall i | 0 <= i < |es| ensures Passes(es[i]) { assert i > 0 ==> Passes(es[1..][i - 1]); }
    }
    if AllPass(es) {
      forall i | 0 <= i < |es| - 1 ensures Passes(es[1..][i]) { assert Passes(es[i + 1]); }
    }
  }

  /** The four outcomes, each by a test of the bytes. */
  lemma OutcomeIff(b: seq<Byte>)
    ensures var s := SplitOptions(Behind(b, 240));
      && (Decode(b).Overrun? <==> !StringsEnd(b))
      && (Decode(b).Refused? <==> StringsEnd(b) && !(Window(b, 236, 4) == COOKIE && AllPass(s.entries)))
      && (Decode(b).Endless? <==> StringsEnd(b) && Window(b, 236, 4) == COOKIE && AllPass(s.entries) && !s.ended)
      && (Decode(b).Parsed? <==> StringsEnd(b) && Window(b, 236, 4) == COOKIE && AllPass(s.entries) && s.ended)
  {
    var t := Behind(b, 240);
    var s := SplitOptions(t);
    SplitsReadable(t);
    FinishedOutcome(s.entries, s.ended, s.rest, Progress(NO_OPTIONS, false, 240));
  }

  // ------------------------------------------------------------------ the loop of the source

  /** The option loop makes n rounds on these bytes, and on the zeros behind them. */
  ghost predicate Goes(c: seq<Byte>, n: nat)
    decreases n
  {
    n == 0 || (&& ByteAt(c, 0) != END
               && Accepts(ByteAt(c, 0), ByteAt(c, 1), ByteAt(c, 2))
               && Goes(Behind(c, 2 + ByteAt(c, 1)), n - 1))
  }

  lemma {:induction false} EndlessGoes(c: seq<Byte>, p: Progress, n: nat)
    requires DecodeOptions(c, p).Endless?
    ensures Goes(c, n)
    decreases n
  {
    if n > 0 {
      if c == [] {
        NoEndNoStop(p);
        EndlessGoes([], p, n - 1);
      } else {
        EndsAtOnce(c, p);
        OneRound(c, p);
        EndlessGoes(Behind(c, 2 + ByteAt(c, 1)), Advanced(p, EntryAt(c)), n - 1);
      }
    }
  }

  lemma EndsAtOnce(c: seq<Byte>, p: Progress)
    requires c != []
    ensures c[0] == END ==> DecodeOptions(c, p).Parsed?
  {
    SplitsReadable(c);
  }

  lemma {:induction false} OthersStop(c: seq<Byte>, p: Progress) returns (n: nat)
    requires !DecodeOptions(c, p).Endless?
    ensures !Goes(c, n)
    decreases |c|
  {
    n := 1;
    if c == [] {
      NoEndNoStop(p);
    } else if c[0] != END {
      OneRound(c, p);
      if Accepted(EntryAt(c)) {
        n := OthersStop(Behind(c, 2 + ByteAt(c, 1)), Advanced(p, EntryAt(c)));
        n := n + 1;
      }
    }
  }

  /** "Endless" means what it says: the loop of the source makes any number of rounds. */
  lemma EndlessMeaning(c: seq<Byte>, p: Progress)
    ensures DecodeOptions(c, p).Endless? <==> forall n: nat :: Goes(c, n)
  {
    if DecodeOptions(c, p).Endless? {
      forall n: nat ensures Goes(c, n) { EndlessGoes(c, p, n); }
    } else {
      var n := OthersStop(c, p);
    }
  }

  // ------------------------------------------------------------------ messages that were cut off

  /** What a message is written as up to and with its first k options. */
  function UpTo(m: Message, k: nat): seq<Byte>
    requires k <= |Entries(m.options)|
  {
    FixedPart(m) + StringField(m.sname, 64) + StringField(m.file, 128) + COOKIE
    + EntriesBytes(Entries(m.options)[..k])
  }

  lemma {:induction false} SplitsCut(es: seq<Entry>)
    requires AllClean(es)
    ensures SplitOptions(EntriesBytes(es)) == OptionList(es, false, [])
    decreases |es|
  {
    if es != [] {
      var e, t := es[0], EntriesBytes(es[1..]);
      assert Clean(e);
      OneOption(e, t);
      SplitsCut(es[1..]);
      assert [e] + es[1..] == es;
    }
  }

  /** On a message in limits that breaks off behind any whole option, or before the end option, the parser does
      not come to an end. */
  lemma CutOffIsEndless(m: Message, k: nat)
    requires InLimits(m) && k <= |Entries(m.options)|
    ensures Decode(UpTo(m, k)).Endless?
    ensures k == |Entries(m.options)| ==> UpTo(m, k) + [END] == Encode(m)
  {
    var es, b := Entries(m.options)[..k], UpTo(m, k);
    OptionsBack(m.options);
    SplitsCut(es);
    StringFieldFills(m.sname, 64);
    StringFieldFills(m.file, 128);
    FourParts(FixedPart(m), StringField(m.sname, 64), StringField(m.file, 128), COOKIE, EntriesBytes(es));
    forall i | 0 <= i < |es| ensures Passes(es[i]) { assert Clean(Entries(m.options)[i]); }
    assert StringField(m.sname, 64)[|m.sname|] == 0 && StringField(m.file, 128)[|m.file|] == 0;
    OutcomeIff(b);
    if k == |Entries(m.options)| { assert es == Entries(m.options); }
  }
}
