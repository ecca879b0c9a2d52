/**
 * The query side of the tracker once the dataset is loaded: the `/epochs`
 * window, the exact `/epochs/<epoch>` lookup and the `/data_time_range`
 * sentence, each a pure function of the loaded data and the request's
 * parameters.
 */
module EpochStore {
  import opened Options
  import opened Digits
  import opened PySlices
  import opened Timestamps
  import opened Epochs
  import opened TemporalIndex

  /** The dataset's declared coverage, the `START_TIME` and `STOP_TIME` metadata texts. */
  datatype Metadata = Metadata(startTime: string, stopTime: string)

  /** What the `/epochs` route sends back: a list of state vectors, or a message text. */
  datatype WindowReply = Listing(items: seq<StateVector>) | Message(text: string)

  const InvalidLimitText := "Invalid limit parameter; limit must be an integer."
  const InvalidOffsetText := "Invalid offset parameter; offset must be an integer."

  function Min(a: int, b: int): int {
    if a <= b then a else b
  }

  /**
   * The slice `epochs[offset : offset + limit + 1]` after the clamp of
   * `limit`. For non-negative parameters it is the contiguous run from
   * `offset` of `limit + 1` epochs, cut short at the end of the list, and
   * empty once `offset` is past the end.
   */
  function Window(all: seq<StateVector>, offset: int, limit: int): (r: seq<StateVector>)
    ensures 0 <= offset && 0 <= limit && offset < |all| ==>
      r == all[offset..Min(offset + limit + 1, |all|)]
    ensures 0 <= offset && 0 <= limit && offset < |all| ==>
      |r| == Min(limit + 1, |all| - offset)
    ensures 0 <= offset && 0 <= limit && |all| <= offset ==> r == []
  {
    var clamped := if offset + limit > |all| then |all| - offset else limit;
    Slice(all, offset, offset + clamped + 1)
  }

  /** The clamp never changes the result for non-negative parameters. */
  lemma ClampIsInert(all: seq<StateVector>, offset: int, limit: int)
    requires 0 <= offset && 0 <= limit
    ensures Window(all, offset, limit) == Slice(all, offset, offset + limit + 1)
  {
  }

  /**
   * `/epochs` with the optional `limit` and `offset` query texts. An absent
   * `limit` stands for the list's length and an absent `offset` for 0. The
   * `limit` text is checked first; a text that is not an integer gives the
   * matching message as the reply (not an error).
   */
  function ListEpochs(all: seq<StateVector>, limitArg: Option<string>, offsetArg: Option<string>): (r: WindowReply)
    ensures limitArg.Some? && ParseInt(limitArg.value).None? ==> r == Message(InvalidLimitText)
    ensures (limitArg.None? || ParseInt(limitArg.value).Some?) && offsetArg.Some? && ParseInt(offsetArg.value).None?
      ==> r == Message(InvalidOffsetText)
    ensures r.Listing? <==>
      (limitArg.None? || ParseInt(limitArg.value).Some?) && (offsetArg.None? || ParseInt(offsetArg.value).Some?)
    ensures r.Listing? ==> |r.items| <= |all| && forall e :: e in r.items ==> e in all
  {
    var limit := if limitArg.None? then Some(|all|) else ParseInt(limitArg.value);
    if limit.None? then Message(InvalidLimitText)
    else
      var offset := if offsetArg.None? then Some(0) else ParseInt(offsetArg.value);
      if offset.None? then Message(InvalidOffsetText)
      else Listing(Window(all, offset.value, limit.value))
  }

  /** With no parameters the whole dataset is listed. */
  lemma ListEverything(all: seq<StateVector>)
    ensures ListEpochs(all, None, None) == Listing(all)
  {
  }

  /**
   * Any `limit` and `offset` texts that parse to non-negative integers
   * list the epochs from rank `offset` on, `limit + 1` of them or up to the
   * end, and nothing once `offset` is past the end.
   */
  lemma ListWindow(all: seq<StateVector>, limitText: string, offsetText: string, limit: nat, offset: nat)
    requires ParseInt(limitText) == Some(limit) && ParseInt(offsetText) == Some(offset)
    ensures ListEpochs(all, Some(limitText), Some(offsetText))
      == Listing(if offset < |all| then all[offset..Min(offset + limit + 1, |all|)] else [])
  {
  }

  /** The same for the plain decimal texts of the two numbers. */
  lemma ListWindowText(all: seq<StateVector>, limit: nat, offset: nat)
    ensures ListEpochs(all, Some(IntText(limit)), Some(IntText(offset)))
      == Listing(if offset < |all| then all[offset..Min(offset + limit + 1, |all|)] else [])
  {
    ParseIntText(limit);
    ParseIntText(offset);
    ListWindow(all, IntText(limit), IntText(offset), limit, offset);
  }

  /** `?limit=1&offset=1` on a dataset of at least three epochs lists two of them. */
  lemma ListOneAfterFirst(all: seq<StateVector>)
    requires |all| >= 3
    ensures ListEpochs(all, Some("1"), Some("1")) == Listing(all[1..3])
  {
    assert "1"[..0] == [];
  }

  /** A `limit` at least the dataset's length lists the whole dataset. */
  lemma ListHugeLimit(all: seq<StateVector>, limit: nat)
    requires |all| <= limit
    ensures ListEpochs(all, Some(IntText(limit)), None) == Listing(all)
  {
    ParseIntText(limit);
  }

  /** The failure kinds of the exact lookup. */
  datatype LookupError = MalformedTimestamp | EpochNotFound

  /** The text each failure carries to the client. */
  function ErrorText(e: LookupError): string {
    match e
    case MalformedTimestamp => "The time provided is not in the correct format."
    case EpochNotFound => "There is no epoch in the dataset whose time perfectly matches the submitted time."
  }

  datatype LookupResult = Found(state: StateVector) | Failed(error: LookupError)

  /** The list comprehension `[e for e in epochs if e["EPOCH"] == epoch]`. */
  function Matching(svs: seq<StateVector>, epoch: string): (r: seq<StateVector>)
    ensures forall e :: e in r ==> e in svs && e.epoch == epoch
    ensures r == [] <==> forall i :: 0 <= i < |svs| ==> svs[i].epoch != epoch
    ensures r != [] ==> exists i :: (0 <= i < |svs| && svs[i] == r[0]
                                     && forall j :: 0 <= j < i ==> svs[j].epoch != epoch)
  {
    if svs == [] then []
    else
      var rest := Matching(svs[1..], epoch);
      if svs[0].epoch == epoch then [svs[0]] + rest
      else
        assert forall i :: 1 <= i < |svs| ==> svs[i] == svs[1..][i - 1];
        rest
  }

  /**
   * `epoch_f`: the format is checked first, then the first state vector
   * whose `EPOCH` text equals the given text is returned. A well-formed
   * text without an exact textual match fails; no nearby epoch is ever
   * substituted.
   */
  function EpochLookup(svs: seq<StateVector>, epoch: string): (r: LookupResult)
    ensures r == Failed(MalformedTimestamp) <==> !ValidFormat(epoch)
    ensures r == Failed(EpochNotFound) <==>
      ValidFormat(epoch) && forall i :: 0 <= i < |svs| ==> svs[i].epoch != epoch
    ensures r.Found? ==> r.state.epoch == epoch
    ensures r.Found? ==> exists i :: (0 <= i < |svs| && svs[i] == r.state
                                      && forall j :: 0 <= j < i ==> svs[j].epoch != epoch)
  {
    if !ValidFormat(epoch) then Failed(MalformedTimestamp)
    else
      var matches := Matching(svs, epoch);
      if |matches| == 0 then Failed(EpochNotFound) else Found(matches[0])
  }

  /** In a chronological dataset, every epoch is found by its own `EPOCH` text. */
  lemma LookupOwnEpoch(svs: seq<StateVector>, i: int)
    requires Chronological(svs) && 0 <= i < |svs|
    ensures EpochLookup(svs, svs[i].epoch) == Found(svs[i])
  {
    var r := EpochLookup(svs, svs[i].epoch);
    assert r.Found?;
    var j :| 0 <= j < |svs| && svs[j] == r.state;
    DistinctEpochTexts(svs, i, j);
  }

  /** The malformed-timestamp request of the tests is refused with the format message. */
  lemma LookupBadFormat(svs: seq<StateVector>, epoch: string)
    requires epoch == "a_bad_time_format"
    ensures EpochLookup(svs, epoch) == Failed(MalformedTimestamp)
    ensures ErrorText(EpochLookup(svs, epoch).error) == "The time provided is not in the correct format."
  {
    assert |RemoveZ(epoch)| < 19;
  }

  /**
   * The year-2000 request of the tests is well formed, so on a dataset
   * without that exact `EPOCH` text it gets the not-found message.
   */
  lemma LookupMissingEpoch(svs: seq<StateVector>, epoch: string)
    requires epoch == "2000-001T00:00:00.001Z"
    requires forall i :: 0 <= i < |svs| ==> svs[i].epoch != epoch
    ensures EpochLookup(svs, epoch) == Failed(EpochNotFound)
    ensures ErrorText(EpochLookup(svs, epoch).error)
      == "There is no epoch in the dataset whose time perfectly matches the submitted time."
  {
    FixtureYears();
    assert epoch[..4] == "2000";
    assert epoch[4..] == "-001T00:00:00.001Z";
    assert epoch == epoch[..4] + epoch[4..];
    FixtureParses(epoch, "2000", 2000);
  }

  /**
   * What `/now` relies on: the `EPOCH` text of the epoch nearest to any
   * instant looks that same epoch up.
   */
  lemma NearestIsLookedUp(svs: seq<StateVector>, now: int)
    requires |svs| > 0 && Chronological(svs)
    ensures EpochLookup(svs, svs[NearestIndex(Instants(svs), now)].epoch) == Found(svs[NearestIndex(Instants(svs), now)])
  {
    LookupOwnEpoch(svs, NearestIndex(Instants(svs), now));
  }

  /** An exact lookup finds the epoch the nearest-epoch search would find at the same instant. */
  lemma LookupAgreesWithSearch(svs: seq<StateVector>, epoch: string)
    requires Chronological(svs)
    requires EpochLookup(svs, epoch).Found?
    ensures |svs| > 0 && EpochLookup(svs, epoch).state == svs[NearestIndex(Instants(svs), Instant(epoch))]
  {
    var r := EpochLookup(svs, epoch);
    var i :| 0 <= i < |svs| && svs[i] == r.state;
    ExactHit(Instants(svs), Instant(epoch), i);
  }

  /** The pieces `data_time_range` cuts from a metadata timestamp. */
  function YearText(s: string): (r: string)
    ensures |r| <= 4
  {
    Slice(s, 0, 4)
  }

  function DayText(s: string): (r: string)
    ensures |r| <= 3
  {
    Slice(s, 5, 8)
  }

  function ClockText(s: string): (r: string)
    ensures |r| <= 10
  {
    Slice(s, 9, 19)
  }

  /** `data_time_range`: the coverage sentence built from the metadata texts. */
  function TimeRangeMessage(meta: Metadata): (r: string)
    ensures 61 <= |r| <= 95
    ensures r[..25] == "The data ranges from the "
  {
    "The data ranges from the " + DayText(meta.startTime) + "th day of " + YearText(meta.startTime)
    + " at " + ClockText(meta.startTime) + " to the " + DayText(meta.stopTime) + "th day of "
    + YearText(meta.stopTime) + " at " + ClockText(meta.stopTime)
  }

  /** The clock piece: hours, minutes, seconds and the first fraction digit. */
  function ClockOf(f: TimeFields, tenths: char): string
    requires ValidFields(f)
  {
    FixedWidth(f.hour, 2) + ":" + FixedWidth(f.minute, 2) + ":" + FixedWidth(f.second, 2) + "." + [tenths]
  }

  /**
   * On a metadata timestamp `t` followed by its `Z`, the three pieces are
   * the year field, the day-of-year field, and the clock down to the first
   * fraction digit.
   */
  lemma MetadataPieces(t: string, f: TimeFields)
    requires Parse(t) == Some(f)
    ensures YearText(t + "Z") == FixedWidth(f.year, 4)
    ensures DayText(t + "Z") == FixedWidth(f.day, 3)
    ensures ClockText(t + "Z") == ClockOf(f, t[18]) && IsDigit(t[18])
    ensures DigitValue(t[18]) == f.micro / 100000
  {
    FirstFractionDigit(t);
    assert WellShaped(t) && FieldsOf(t) == f;
    var s := t + "Z";
    assert YearText(s) == FixedWidth(f.year, 4) by {
      assert s[0..4] == t[0..4];
      FixedWidthValueOf(t[0..4]);
    }
    assert DayText(s) == FixedWidth(f.day, 3) by {
      assert s[5..8] == t[5..8];
      FixedWidthValueOf(t[5..8]);
    }
    assert ClockText(s) == ClockOf(f, t[18]) by {
      assert s[9..19] == t[9..19];
      FixedWidthValueOf(t[9..11]);
      FixedWidthValueOf(t[12..14]);
      FixedWidthValueOf(t[15..17]);
      assert t[9..19] == t[9..11] + ":" + t[12..14] + ":" + t[15..17] + "." + [t[18]];
    }
  }

  /**
   * For metadata timestamps that parse, the sentence reports the day of
   * year, the year and the clock of `START_TIME`, then those of
   * `STOP_TIME`.
   */
  lemma TimeRangeReportsFields(start: string, startFields: TimeFields, stop: string, stopFields: TimeFields)
    requires Parse(start) == Some(startFields) && Parse(stop) == Some(stopFields)
    ensures TimeRangeMessage(Metadata(start + "Z", stop + "Z")) ==
      "The data ranges from the " + FixedWidth(startFields.day, 3) + "th day of " + FixedWidth(startFields.year, 4)
      + " at " + ClockOf(startFields, start[18]) + " to the " + FixedWidth(stopFields.day, 3) + "th day of "
      + FixedWidth(stopFields.year, 4) + " at " + ClockOf(stopFields, stop[18])
  {
    MetadataPieces(start, startFields);
    MetadataPieces(stop, stopFields);
  }
}
