/** The Start button, `save_and_start`: validate the settings form in the
    program's order, write the SETTINGS record, then start the beacon. */
module Settings {
  import opened Wrappers
  import Text
  import Decimal
  import Passcode
  import Beacon

  /** The shortest accepted beacon interval, in seconds (five minutes). */
  const MinInterval := 300

  /** The raw text of the eight entries of the settings window. */
  datatype Form = Form(callsign: string, passcode: string, lat: string, lon: string,
                       table: string, symbol: string, comment: string, interval: string)

  /** The SETTINGS section as `save_settings` writes it; INTERVAL holds
      `str` of the parsed interval. */
  datatype Stored = Stored(callsign: string, passcode: string, lat: string, lon: string,
                           table: string, symbol: string, comment: string, interval: string)

  /** The four error dialogs, one per failed check, and `InvalidPosition`,
      which only the corrected Start button of `SaveAndStart` shows. */
  datatype FormError = InvalidPasscode | IntervalNotNumber | IntervalTooShort | SymbolNotSingle
                     | InvalidPosition

  /** What pressing Start comes to: a dialog, a record written (and the
      beacon started), or a record that passed the checks but whose write
      raised, which ends the callback before `start_beacon`. */
  datatype Outcome = Rejected(error: FormError) | Saved(stored: Stored) | Unwritten(stored: Stored)

  /** What the model takes from outside the checks: `written`, whether
      `save_settings` completes (ConfigParser refuses a value holding a `%`
      that starts no interpolation, and the file may not open); `readable`,
      whether the new loop's start-up reads of the record succeed
      (`float` of LAT and LON, finite values for `decimal_to_aprs`). */
  datatype Env = Env(written: bool, readable: bool)

  /** The passcode check, on the stripped callsign and passcode. */
  predicate PasscodeOk(f: Form) {
    Passcode.VerifyPasscode(Text.Strip(f.callsign), Text.Strip(f.passcode))
  }

  function IntervalOf(f: Form): Option<int> {
    Decimal.ParseInt(Text.Strip(f.interval))
  }

  /** The checks in the program's order; the first that fails decides the
      dialog and nothing is written. On success every entry but the table
      is stored stripped. */
  function Validate(f: Form): (r: Outcome)
    ensures !r.Unwritten? && (r.Rejected? ==> r.error != InvalidPosition)
    ensures r == Rejected(InvalidPasscode) <==> !PasscodeOk(f)
    ensures r == Rejected(IntervalNotNumber) <==> PasscodeOk(f) && IntervalOf(f).None?
    ensures r == Rejected(IntervalTooShort)
        <==> PasscodeOk(f) && IntervalOf(f).Some? && IntervalOf(f).value < MinInterval
    ensures r == Rejected(SymbolNotSingle)
        <==> PasscodeOk(f) && IntervalOf(f).Some? && IntervalOf(f).value >= MinInterval
             && |Text.Strip(f.symbol)| != 1
    ensures r.Saved? ==>
      && Passcode.VerifyPasscode(r.stored.callsign, r.stored.passcode)
      && Decimal.ParseInt(r.stored.interval) == IntervalOf(f)
      && Decimal.ParseInt(r.stored.interval).value >= MinInterval
      && |r.stored.symbol| == 1
      && r.stored.table == f.table
      && Text.Trimmed(r.stored.callsign) && Text.Trimmed(r.stored.passcode)
      && Text.Trimmed(r.stored.lat) && Text.Trimmed(r.stored.lon)
      && Text.Trimmed(r.stored.comment)
    ensures r.Saved? ==>
      && r.stored.callsign == Text.Strip(f.callsign) && r.stored.passcode == Text.Strip(f.passcode)
      && r.stored.lat == Text.Strip(f.lat) && r.stored.lon == Text.Strip(f.lon)
      && r.stored.symbol == Text.Strip(f.symbol) && r.stored.comment == Text.Strip(f.comment)
      && r.stored.interval == Decimal.Format(IntervalOf(f).value)
  {
    var callsign := Text.Strip(f.callsign);
    var passcode := Text.Strip(f.passcode);
    if !Passcode.VerifyPasscode(callsign, passcode) then Rejected(InvalidPasscode)
    else
      match Decimal.ParseInt(Text.Strip(f.interval))
      case None => Rejected(IntervalNotNumber)
      case Some(n) =>
        if n < MinInterval then Rejected(IntervalTooShort)
        else
          var symbol := Text.Strip(f.symbol);
          if |symbol| != 1 then Rejected(SymbolNotSingle)
          else
            var text := Decimal.Format(n);
            Decimal.ParseDigits(text);
            Saved(Stored(callsign, passcode, Text.Strip(f.lat), Text.Strip(f.lon), f.table,
                         symbol, Text.Strip(f.comment), text))
  }

  /** `save_and_start`: on a rejected form the scheduler is untouched; on a
      saved one the beacon is started, and a newly spawned loop reads the
      interval just written. Saving while running writes the record but the
      loop keeps the interval it read when it started. A write that raises
      starts nothing. With `checkPosition` (the correction this model
      proposes) a record the loop could not read is refused with a dialog
      before anything is written. */
  function SaveAndStart(f: Form, s: Beacon.State, env: Env, checkPosition: bool): (r: (Outcome, Beacon.State))
    ensures Validate(f).Rejected? ==> r == (Validate(f), s)
    ensures r.0 == Rejected(InvalidPosition) <==> Validate(f).Saved? && checkPosition && !env.readable
    ensures r.0.Saved? <==> Validate(f).Saved? && env.written && (env.readable || !checkPosition)
    ensures !r.0.Rejected? ==> r.0.stored == Validate(f).stored
    ensures !r.0.Saved? ==> r.1 == s
    ensures r.0.Saved? ==> r.1.running && r.1.sends == s.sends
    ensures r.0.Saved? && s.running ==> r.1 == s
    ensures r.0.Saved? && !s.running ==>
      r.1.loops == s.loops + [Beacon.Loop(if env.readable then Beacon.Top else Beacon.Exited,
                                          Decimal.ParseInt(r.0.stored.interval).value)]
  {
    match Validate(f)
    case Saved(st) =>
      if checkPosition && !env.readable then (Rejected(InvalidPosition), s)
      else if !env.written then (Unwritten(st), s)
      else (Saved(st), Beacon.Start(s, Decimal.ParseInt(st.interval).value, env.readable))
    case other => (other, s)
  }

  /** The form the settings window shows after a restart: `setup_gui`
      fills every entry from its key of the saved record. This is the text
      as written only when ConfigParser's reading changes nothing, which
      `ReadsBack` states. */
  function Reopen(st: Stored): Form {
    Form(st.callsign, st.passcode, st.lat, st.lon, st.table, st.symbol, st.comment, st.interval)
  }

  /** Text ConfigParser's interpolation leaves alone on reading: it holds
      no `%` (`%%` would be read as `%`, `%(key)s` as another value). */
  predicate Plain(s: string) {
    '%' !in s
  }

  /** A form whose saved record reads back as written: no stored entry holds
      a `%`, and the table is one of the two the menu offers, so the value
      needs no stripping on reading. */
  predicate ReadsBack(f: Form) {
    && Plain(Text.Strip(f.callsign)) && Plain(Text.Strip(f.passcode))
    && Plain(Text.Strip(f.lat)) && Plain(Text.Strip(f.lon))
    && Plain(Text.Strip(f.symbol)) && Plain(Text.Strip(f.comment))
    && (f.table == "/" || f.table == "\\")
  }

  /** After a restart, pressing Start on the window filled from the saved
      record saves the same record: what was saved passes every check and
      is a fixed point. */
  lemma SaveIsStable(f: Form)
    requires Validate(f).Saved? && ReadsBack(f)
    ensures Validate(Reopen(Validate(f).stored)) == Validate(f)
  {
    var st := Validate(f).stored;
    ReopenChecks(f, st, IntervalOf(f).value);
  }

  /** The entries of a record stored from `f` pass the checks as `f` did. */
  lemma ReopenChecks(f: Form, st: Stored, n: nat)
    requires st.callsign == Text.Strip(f.callsign) && st.passcode == Text.Strip(f.passcode)
    requires st.lat == Text.Strip(f.lat) && st.lon == Text.Strip(f.lon) && st.table == f.table
    requires st.symbol == Text.Strip(f.symbol) && st.comment == Text.Strip(f.comment)
    requires IntervalOf(f) == Some(n as int) && st.interval == Decimal.Format(n)
    ensures Validate(Reopen(st)) == Validate(f)
  {
    var g := Reopen(st);
    Text.StripTrimmed(st.callsign);
    Text.StripTrimmed(st.passcode);
    Text.StripTrimmed(st.lat);
    Text.StripTrimmed(st.lon);
    Text.StripTrimmed(st.comment);
    Text.StripTrimmed(st.symbol);
    Decimal.DigitsTrimmed(st.interval);
    assert Decimal.Abs(n) == n;
    assert |st.interval| <= Decimal.MaxStrDigits;
    Decimal.ParseDigits(st.interval);
    SameChecks(f, g);
  }

  /** The outcome depends on the entries only through what the checks
      read: the stripped texts, the table and the interval's value. */
  lemma SameChecks(f: Form, g: Form)
    requires Text.Strip(f.callsign) == Text.Strip(g.callsign)
    requires Text.Strip(f.passcode) == Text.Strip(g.passcode)
    requires Text.Strip(f.lat) == Text.Strip(g.lat) && Text.Strip(f.lon) == Text.Strip(g.lon)
    requires f.table == g.table && Text.Strip(f.symbol) == Text.Strip(g.symbol)
    requires Text.Strip(f.comment) == Text.Strip(g.comment)
    requires IntervalOf(f) == IntervalOf(g)
    ensures Validate(f) == Validate(g)
  {
  }

  /** Every entry but the table with the same whitespace around it. */
  function Pad(f: Form, lead: string, trail: string): Form {
    Form(lead + f.callsign + trail, lead + f.passcode + trail, lead + f.lat + trail,
         lead + f.lon + trail, f.table, lead + f.symbol + trail, lead + f.comment + trail,
         lead + f.interval + trail)
  }

  /** Whitespace typed around the entries changes nothing: not the checks,
      not the error shown, not the record written. */
  lemma PaddingIgnored(f: Form, lead: string, trail: string)
    requires Text.AllSpace(lead) && Text.AllSpace(trail)
    ensures Validate(Pad(f, lead, trail)) == Validate(f)
  {
    Text.StripPadded(lead, f.callsign, trail);
    Text.StripPadded(lead, f.passcode, trail);
    Text.StripPadded(lead, f.lat, trail);
    Text.StripPadded(lead, f.lon, trail);
    Text.StripPadded(lead, f.symbol, trail);
    Text.StripPadded(lead, f.comment, trail);
    Text.StripPadded(lead, f.interval, trail);
    SameChecks(Pad(f, lead, trail), f);
  }

  /** A form whose passcode is computed from its callsign, whose interval
      is at least five minutes and whose symbol is one character is saved. */
  lemma AcceptsValidForm(f: Form, n: nat)
    requires Text.Strip(f.passcode) == Decimal.Format(Passcode.ComputePasscode(Text.Strip(f.callsign)))
    requires Text.Strip(f.interval) == Decimal.Format(n) && n >= MinInterval
    requires |Decimal.Format(n)| <= Decimal.MaxStrDigits
    requires |Text.Strip(f.symbol)| == 1
    ensures Validate(f).Saved?
    ensures Validate(f).stored.interval == Text.Strip(f.interval)
  {
    PasscodeAccepted(f);
    Decimal.ParseDigits(Decimal.Format(n));
  }

  /** The passcode check passes when the passcode entry is `str` of the
      callsign's passcode. */
  lemma PasscodeAccepted(f: Form)
    requires Text.Strip(f.passcode) == Decimal.Format(Passcode.ComputePasscode(Text.Strip(f.callsign)))
    ensures PasscodeOk(f)
  {
    Passcode.PasscodeDigits(Text.Strip(f.callsign));
    Decimal.ParseDigits(Text.Strip(f.passcode));
  }

  /** An interval of more digits than `int()` reads gets the "must be a
      number" dialog, however large the number. */
  lemma LongIntervalRejected(f: Form)
    requires PasscodeOk(f)
    requires Decimal.AllDigits(Text.Strip(f.interval)) && |Text.Strip(f.interval)| > Decimal.MaxStrDigits
    ensures Validate(f) == Rejected(IntervalNotNumber)
  {
    Decimal.TooManyDigits(Text.Strip(f.interval));
  }

  /** Starting from a stopped beacon, a saved form whose record is written
      and readable spawns one loop whose interval is the one entered, and
      that loop sends within its first two steps. */
  lemma SavedFormBeacons(f: Form, s: Beacon.State, env: Env, checkPosition: bool, delivered: bool)
    requires Validate(f).Saved? && !s.running && env.written && env.readable
    ensures var t := SaveAndStart(f, s, env, checkPosition).1;
      && |t.loops| == |s.loops| + 1
      && t.loops[|s.loops|].interval == IntervalOf(f).value
      && var i := |s.loops|;
         Beacon.Tick(Beacon.Tick(t, i, delivered, false), i, delivered, false).sends
           == s.sends + [Beacon.Attempt(i, delivered)]
  {
    var n := IntervalOf(f).value;
    assert SaveAndStart(f, s, env, checkPosition).1 == Beacon.Start(s, n, true);
    Beacon.FreshStartSends(s, n, delivered, false);
  }

  /** As written, a saved record whose position the loop cannot read
      raises the flag with no loop behind it: nothing is ever sent, and
      every later Start is ignored, until Stop is pressed. */
  lemma UnreadablePositionStalls(f: Form, s: Beacon.State, env: Env, events: seq<Beacon.Event>,
                                 g: Form, env': Env)
    requires Validate(f).Saved? && env.written && !env.readable
    requires !s.running && forall j :: 0 <= j < |s.loops| ==> s.loops[j].pc == Beacon.Exited
    requires forall k :: 0 <= k < |events| ==> !events[k].StopEvent?
    ensures var t := SaveAndStart(f, s, env, false).1;
      && SaveAndStart(f, s, env, false).0.Saved?
      && t.running
      && Beacon.Run(t, events, false) == t && t.sends == s.sends
      && SaveAndStart(g, t, env', false).1 == t
  {
    var n := IntervalOf(f).value;
    var t := SaveAndStart(f, s, env, false).1;
    assert t == Beacon.Start(s, n, false);
    Beacon.UnreadableStartStalls(s, n, events, false);
    StartWhileRunning(g, t, env', false);
  }

  /** Pressing Start while the flag is raised may rewrite the record but
      never touches the scheduler. */
  lemma StartWhileRunning(f: Form, s: Beacon.State, env: Env, checkPosition: bool)
    requires s.running
    ensures SaveAndStart(f, s, env, checkPosition).1 == s
  {
  }

  /** With the position checked before saving, a Start from a stopped
      beacon either shows a dialog and changes nothing, or spawns a loop
      that passes its test and sends: the flag is never raised for a loop
      that cannot run. */
  lemma CheckedStartBeacons(f: Form, s: Beacon.State, env: Env, delivered: bool)
    requires Validate(f).Saved? && !s.running && env.written
    ensures var r := SaveAndStart(f, s, env, true);
      || (r.0 == Rejected(InvalidPosition) && r.1 == s)
      || (&& r.0.Saved?
          && |r.1.loops| == |s.loops| + 1 && r.1.loops[|s.loops|].pc == Beacon.Top
          && var i := |s.loops|;
             Beacon.Tick(Beacon.Tick(r.1, i, delivered, false), i, delivered, false).sends
               == s.sends + [Beacon.Attempt(i, delivered)])
  {
    if env.readable {
      SavedFormBeacons(f, s, env, true, delivered);
    }
  }
}
