/**
 * The result-building part of `fetch_diet_records` in ingestion/api_client.py, taken over the
 * already-decoded response of the parliamentary-records API. The loop walks meetings, then
 * the speeches of each meeting, keeps the speeches whose text contains the keyword, maps each
 * kept speech to a five-field record, and returns as soon as the record count reaches
 * `max_records`. Any exception inside the `try` block makes the call return `[]`.
 *
 * The functional specification is a pipeline of four steps:
 *   walk (the speeches visited, in order, up to the first ill-typed value),
 *   Matching (filter on the keyword), Project (map to records), Harvest (truncate).
 */
module DietApi {
  import opened Wrappers

  /** A member of a decoded JSON object: missing, present with the value `null`, or present. */
  datatype Json<+T> = Absent | Null | Present(value: T)

  /**
   * An object of a meeting's `speechRecord` list. The list itself holds `Option<Speech>`:
   * `None` is a `null` element.
   */
  datatype Speech = Speech(speechID: Option<string>, speaker: Option<string>, speech: Json<string>)

  /** An object of the response's `meetingRecord` list, whose `null` elements are `None`. */
  datatype Meeting = Meeting(nameOfMeeting: Option<string>, date: Option<string>, speechRecord: Json<seq<Option<Speech>>>)

  /** The decoded response body, a JSON object. */
  datatype Response = Response(meetingRecord: Json<seq<Option<Meeting>>>)

  /**
   * What the request stage yields: a failure or a decoded object. `RequestFailed` covers a
   * request error, a bad status, an undecodable body, and a body that decodes to something
   * other than an object (then `data.get` raises); each of these lands in the `except` branch
   * before any record is built.
   */
  datatype Fetched = RequestFailed | Decoded(response: Response)

  /** The dictionary appended to `records`, with keys `id`, `speaker`, `meeting`, `date`, `voice`. */
  datatype DietRecord = DietRecord(id: Option<string>, speaker: Option<string>, meeting: Option<string>, date: Option<string>, voice: string)

  /** The keyword and record limit `fetch_diet_records` uses when called without arguments. */
  const DefaultKeyword: string := "少子化"
  const DefaultMaxRecords: int := 10

  // ---------------------------------------------------------------------------------------
  // Substring test: Python's `keyword in speech_text`
  // ---------------------------------------------------------------------------------------

  predicate StartsWith(text: string, prefix: string)
  {
    |prefix| <= |text| && text[..|prefix|] == prefix
  }

  /** `keyword` occurs somewhere in `text`; the empty keyword occurs in every text. */
  predicate Contains(text: string, keyword: string)
    decreases |text|
  {
    StartsWith(text, keyword) || (|text| > 0 && Contains(text[1..], keyword))
  }

  /** `keyword` occurs in `text` starting at index `i`. */
  predicate OccursAt(text: string, keyword: string, i: int)
  {
    0 <= i && i + |keyword| <= |text| && text[i..i + |keyword|] == keyword
  }

  /** The recursive test agrees with the reference definition "some index starts an occurrence". */
  lemma {:induction false} ContainsIffOccurs(text: string, keyword: string)
    ensures Contains(text, keyword) <==> exists i :: OccursAt(text, keyword, i)
    decreases |text|
  {
    if StartsWith(text, keyword) {
      assert OccursAt(text, keyword, 0);
    } else if |text| > 0 {
      ContainsIffOccurs(text[1..], keyword);
      if Contains(text[1..], keyword) {
        var i :| OccursAt(text[1..], keyword, i);
        assert text[1..][i..i + |keyword|] == text[i + 1..i + 1 + |keyword|];
        assert OccursAt(text, keyword, i + 1);
      }
      if i :| OccursAt(text, keyword, i) {
        assert i != 0;
        assert text[1..][i - 1..i - 1 + |keyword|] == text[i..i + |keyword|];
        assert OccursAt(text[1..], keyword, i - 1);
      }
    }
  }

  /** With the empty keyword every speech matches. */
  lemma EmptyKeywordOccursEverywhere(text: string)
    ensures Contains(text, "")
  {
  }

  // ---------------------------------------------------------------------------------------
  // The walk over the decoded response
  // ---------------------------------------------------------------------------------------

  /** A visited speech together with its meeting and its text. */
  datatype Entry = Entry(meeting: Meeting, speech: Speech, text: string)

  /**
   * The speeches a walk visits, in order, and whether it stopped at a `null` where an object,
   * a list or a string was expected (`None.get(...)` raises AttributeError; iterating over
   * `None`, or `keyword in None`, raises TypeError).
   */
  datatype Walk = Walk(entries: seq<Entry>, broken: bool)

  const EmptyWalk := Walk([], false)
  const Crash := Walk([], true)

  /** Walking `first` and then `second`: nothing after a crash is visited. */
  function Then(first: Walk, second: Walk): Walk
  {
    if first.broken then first else Walk(first.entries + second.entries, second.broken)
  }

  /** `speech.get("speech", "")`: the empty text when missing, no string when `null`. */
  function TextOf(s: Speech): Option<string>
  {
    match s.speech
    case Absent => Some("")
    case Null => None
    case Present(t) => Some(t)
  }

  /** One element of `speechRecord`: a `null` element or a `null` text crashes. */
  function SpeechStep(m: Meeting, item: Option<Speech>): Walk
  {
    match item
    case None => Crash
    case Some(s) =>
      match TextOf(s)
      case None => Crash
      case Some(t) => Walk([Entry(m, s, t)], false)
  }

  function SpeechWalk(m: Meeting, speeches: seq<Option<Speech>>): Walk
  {
    if speeches == [] then EmptyWalk else Then(SpeechStep(m, speeches[0]), SpeechWalk(m, speeches[1..]))
  }

  /**
   * One element of `meetingRecord` and `meeting.get("speechRecord", [])`: a `null` element
   * crashes, a missing list contributes nothing, a `null` list crashes.
   */
  function MeetingStep(item: Option<Meeting>): Walk
  {
    match item
    case None => Crash
    case Some(m) =>
      match m.speechRecord
      case Absent => EmptyWalk
      case Null => Crash
      case Present(speeches) => SpeechWalk(m, speeches)
  }

  function MeetingWalk(meetings: seq<Option<Meeting>>): Walk
  {
    if meetings == [] then EmptyWalk else Then(MeetingStep(meetings[0]), MeetingWalk(meetings[1..]))
  }

  /** The meetings of the response (`data.get("meetingRecord", [])`), when it is a list. */
  function Meetings(fetched: Fetched): seq<Option<Meeting>>
  {
    if fetched.Decoded? && fetched.response.meetingRecord.Present? then fetched.response.meetingRecord.value else []
  }

  /** The walk of the whole call; a failed request counts as a crash before any speech. */
  function FetchWalk(fetched: Fetched): Walk
  {
    match fetched
    case RequestFailed => Crash
    case Decoded(response) =>
      match response.meetingRecord
      case Absent => EmptyWalk
      case Null => Crash
      case Present(meetings) => MeetingWalk(meetings)
  }

  // ---------------------------------------------------------------------------------------
  // Filter, projection, truncation
  // ---------------------------------------------------------------------------------------

  /** The entries whose text contains `keyword`, in their original order. */
  function Matching(entries: seq<Entry>, keyword: string): seq<Entry>
  {
    if entries == [] then []
    else (if Contains(entries[0].text, keyword) then [entries[0]] else []) + Matching(entries[1..], keyword)
  }

  function ToRecord(e: Entry): DietRecord
  {
    DietRecord(e.speech.speechID, e.speech.speaker, e.meeting.nameOfMeeting, e.meeting.date, e.text)
  }

  /** The records built from `entries`, one per entry, in order. */
  function Project(entries: seq<Entry>): seq<DietRecord>
  {
    if entries == [] then [] else [ToRecord(entries[0])] + Project(entries[1..])
  }

  /**
   * The record count at which the loop returns early. The check `len(records) >= max_records`
   * runs right after an append, so for `max_records <= 0` it fires at the first record.
   */
  function Cap(maxRecords: int): nat
  {
    if maxRecords >= 1 then maxRecords else 1
  }

  /** Every record the walk's matching speeches give, in traversal order. */
  function AllMatches(fetched: Fetched, keyword: string): seq<DietRecord>
  {
    Project(Matching(FetchWalk(fetched).entries, keyword))
  }

  function Harvest(w: Walk, keyword: string, maxRecords: int): seq<DietRecord>
  {
    var all := Project(Matching(w.entries, keyword));
    if |all| >= Cap(maxRecords) then all[..Cap(maxRecords)]
    else if w.broken then []
    else all
  }

  /** What `fetch_diet_records(keyword, max_records)` returns for the given fetch outcome. */
  function FirstMatches(fetched: Fetched, keyword: string, maxRecords: int): seq<DietRecord>
  {
    Harvest(FetchWalk(fetched), keyword, maxRecords)
  }

  // ---------------------------------------------------------------------------------------
  // What the walk, the filter and the projection promise
  // ---------------------------------------------------------------------------------------

  /** `e` is a speech of one of `meetings`, carrying that speech's text. */
  predicate Heard(e: Entry, meetings: seq<Option<Meeting>>)
  {
    && Some(e.meeting) in meetings
    && e.meeting.speechRecord.Present?
    && Some(e.speech) in e.meeting.speechRecord.value
    && TextOf(e.speech) == Some(e.text)
  }

  /** An element of `speechRecord` that is an object whose text is not `null`. */
  predicate Readable(item: Option<Speech>)
  {
    item.Some? && TextOf(item.value).Some?
  }

  /** Every speech a meeting's walk visits is one of its speeches, with its own text. */
  lemma {:induction false} SpeechWalkSound(m: Meeting, speeches: seq<Option<Speech>>)
    ensures forall e :: e in SpeechWalk(m, speeches).entries ==>
              e.meeting == m && Some(e.speech) in speeches && TextOf(e.speech) == Some(e.text)
    decreases |speeches|
  {
    if speeches != [] {
      SpeechWalkSound(m, speeches[1..]);
    }
  }

  /**
   * Speech order: when no element and no text is `null`, the walk visits every speech of the
   * list, one entry per speech, in list order.
   */
  lemma {:induction false} SpeechWalkInOrder(m: Meeting, speeches: seq<Option<Speech>>)
    requires forall k :: 0 <= k < |speeches| ==> Readable(speeches[k])
    ensures !SpeechWalk(m, speeches).broken
    ensures |SpeechWalk(m, speeches).entries| == |speeches|
    ensures forall k :: 0 <= k < |speeches| ==>
              Readable(speeches[k]) && SpeechWalk(m, speeches).entries[k] == Entry(m, speeches[k].value, TextOf(speeches[k].value).value)
    decreases |speeches|
  {
    if speeches != [] {
      assert Readable(speeches[0]);
      SpeechWalkInOrder(m, speeches[1..]);
      var rest := SpeechWalk(m, speeches[1..]).entries;
      assert SpeechWalk(m, speeches).entries == [Entry(m, speeches[0].value, TextOf(speeches[0].value).value)] + rest;
      forall k | 1 <= k < |speeches|
        ensures Readable(speeches[k]) && SpeechWalk(m, speeches).entries[k] == Entry(m, speeches[k].value, TextOf(speeches[k].value).value)
      {
        assert speeches[1..][k - 1] == speeches[k];
      }
    }
  }

  /** A walk that did not crash met no `null` and visited every speech of the list. */
  lemma {:induction false} SpeechWalkComplete(m: Meeting, speeches: seq<Option<Speech>>)
    requires !SpeechWalk(m, speeches).broken
    ensures forall k :: 0 <= k < |speeches| ==>
              Readable(speeches[k]) && Entry(m, speeches[k].value, TextOf(speeches[k].value).value) in SpeechWalk(m, speeches).entries
    decreases |speeches|
  {
    if speeches != [] {
      assert !SpeechStep(m, speeches[0]).broken;
      SpeechWalkComplete(m, speeches[1..]);
      forall k | 1 <= k < |speeches|
        ensures Readable(speeches[k]) && Entry(m, speeches[k].value, TextOf(speeches[k].value).value) in SpeechWalk(m, speeches).entries
      {
        assert speeches[1..][k - 1] == speeches[k];
      }
    }
  }

  /** Every entry of the walk over the meetings is a speech of one of them. */
  lemma {:induction false} MeetingWalkSound(meetings: seq<Option<Meeting>>)
    ensures forall e :: e in MeetingWalk(meetings).entries ==> Heard(e, meetings)
    decreases |meetings|
  {
    if meetings != [] {
      var item := meetings[0];
      MeetingWalkSound(meetings[1..]);
      if item.Some? && item.value.speechRecord.Present? {
        SpeechWalkSound(item.value, item.value.speechRecord.value);
      }
      forall e | e in MeetingWalk(meetings).entries
        ensures Heard(e, meetings)
      {
        if e !in MeetingStep(item).entries {
          assert e in MeetingWalk(meetings[1..]).entries;
          assert Heard(e, meetings[1..]);
        }
      }
    }
  }

  /** A walk over the meetings that did not crash visited every speech of every meeting. */
  lemma {:induction false} MeetingWalkComplete(meetings: seq<Option<Meeting>>)
    requires !MeetingWalk(meetings).broken
    ensures forall e :: Heard(e, meetings) ==> e in MeetingWalk(meetings).entries
    decreases |meetings|
  {
    if meetings != [] {
      var item := meetings[0];
      assert !MeetingStep(item).broken;
      MeetingWalkComplete(meetings[1..]);
      if item.value.speechRecord.Present? {
        SpeechWalkComplete(item.value, item.value.speechRecord.value);
      }
      forall e | Heard(e, meetings)
        ensures e in MeetingWalk(meetings).entries
      {
        if Some(e.meeting) == item {
          var speeches := e.meeting.speechRecord.value;
          var k :| 0 <= k < |speeches| && speeches[k] == Some(e.speech);
          assert e in MeetingStep(item).entries;
        } else {
          assert Heard(e, meetings[1..]);
        }
      }
    }
  }

  /** A meeting without a `speechRecord` list contributes no records and stops nothing. */
  lemma MissingSpeechRecordContributesNothing(m: Meeting, meetings: seq<Option<Meeting>>)
    requires m.speechRecord.Absent?
    ensures MeetingWalk([Some(m)] + meetings) == MeetingWalk(meetings)
  {
    assert ([Some(m)] + meetings)[1..] == meetings;
  }

  /** A `null` element of `meetingRecord` or `speechRecord` stops the walk there. */
  lemma NullElementCrashes(m: Meeting, meetings: seq<Option<Meeting>>, speeches: seq<Option<Speech>>)
    ensures MeetingWalk([None] + meetings) == Crash
    ensures SpeechWalk(m, [None] + speeches) == Crash
  {
  }

  /** The filter keeps exactly the entries whose text contains the keyword. */
  lemma {:induction false} MatchingIff(entries: seq<Entry>, keyword: string)
    ensures forall e :: e in Matching(entries, keyword) <==> e in entries && Contains(e.text, keyword)
    decreases |entries|
  {
    if entries != [] {
      MatchingIff(entries[1..], keyword);
      assert entries == [entries[0]] + entries[1..];
    }
  }

  /** With the empty keyword the filter keeps everything. */
  lemma {:induction false} EmptyKeywordKeepsAll(entries: seq<Entry>)
    ensures Matching(entries, "") == entries
    decreases |entries|
  {
    if entries != [] {
      assert Contains(entries[0].text, "");
      EmptyKeywordKeepsAll(entries[1..]);
      assert entries == [entries[0]] + entries[1..];
    }
  }

  /** A missing `speech` is the empty text, which only the empty keyword matches. */
  lemma MissingSpeechMatchesOnlyEmptyKeyword(s: Speech, keyword: string)
    requires s.speech.Absent?
    ensures TextOf(s) == Some("")
    ensures Contains("", keyword) <==> keyword == ""
  {
  }

  /** Record `k` is built from entry `k`: the field mapping of the appended dictionary. */
  lemma {:induction false} ProjectFields(entries: seq<Entry>)
    ensures |Project(entries)| == |entries|
    ensures forall k :: 0 <= k < |entries| ==>
              && Project(entries)[k].id == entries[k].speech.speechID
              && Project(entries)[k].speaker == entries[k].speech.speaker
              && Project(entries)[k].meeting == entries[k].meeting.nameOfMeeting
              && Project(entries)[k].date == entries[k].meeting.date
              && Project(entries)[k].voice == entries[k].text
    decreases |entries|
  {
    if entries != [] {
      ProjectFields(entries[1..]);
      forall k | 1 <= k < |entries|
        ensures Project(entries)[k] == Project(entries[1..])[k - 1] && entries[k] == entries[1..][k - 1]
      {
      }
    }
  }

  // ---------------------------------------------------------------------------------------
  // What the call returns
  // ---------------------------------------------------------------------------------------

  /**
   * Prefix of the traversal: the result is an initial segment of all matching records, in
   * meeting order and then speech order, and never more than the cap.
   */
  lemma FirstMatchesIsPrefix(fetched: Fetched, keyword: string, maxRecords: int)
    ensures FirstMatches(fetched, keyword, maxRecords) <= AllMatches(fetched, keyword)
    ensures |FirstMatches(fetched, keyword, maxRecords)| <= Cap(maxRecords)
  {
  }

  /** Length without a crash: `min(max_records, matches)`, and one record at most for `max_records <= 0`. */
  lemma FirstMatchesLength(fetched: Fetched, keyword: string, maxRecords: int)
    requires !FetchWalk(fetched).broken
    ensures maxRecords >= 1 ==>
      |FirstMatches(fetched, keyword, maxRecords)| == if maxRecords <= |AllMatches(fetched, keyword)| then maxRecords else |AllMatches(fetched, keyword)|
    ensures maxRecords <= 0 ==>
      |FirstMatches(fetched, keyword, maxRecords)| == if |AllMatches(fetched, keyword)| > 0 then 1 else 0
  {
  }

  /**
   * The exception path: a failed request yields `[]`; a `null` list or text met before the
   * cap is reached yields `[]` as well, discarding the records already collected.
   */
  lemma FirstMatchesOnError(fetched: Fetched, keyword: string, maxRecords: int)
    ensures fetched.RequestFailed? ==> FirstMatches(fetched, keyword, maxRecords) == []
    ensures FetchWalk(fetched).broken && |AllMatches(fetched, keyword)| < Cap(maxRecords) ==>
              FirstMatches(fetched, keyword, maxRecords) == []
    ensures FetchWalk(fetched).broken ==>
              FirstMatches(fetched, keyword, maxRecords) == [] || |FirstMatches(fetched, keyword, maxRecords)| == Cap(maxRecords)
  {
  }

  /** Every returned record's `voice` contains the keyword. */
  lemma FirstMatchesVoicesContainKeyword(fetched: Fetched, keyword: string, maxRecords: int)
    ensures forall r :: r in FirstMatches(fetched, keyword, maxRecords) ==> Contains(r.voice, keyword)
  {
    var entries := Matching(FetchWalk(fetched).entries, keyword);
    var result := FirstMatches(fetched, keyword, maxRecords);
    MatchingIff(FetchWalk(fetched).entries, keyword);
    ProjectFields(entries);
    forall r | r in result
      ensures Contains(r.voice, keyword)
    {
      var k :| 0 <= k < |result| && result[k] == r;
      assert entries[k] in entries;
    }
  }

  /**
   * Soundness: every returned record comes from a speech of the response whose text contains
   * the keyword, with `id`, `speaker`, `meeting`, `date` and `voice` taken from that speech
   * and its meeting.
   */
  lemma FirstMatchesSound(fetched: Fetched, keyword: string, maxRecords: int)
    ensures forall r :: r in FirstMatches(fetched, keyword, maxRecords) ==>
              exists e :: Heard(e, Meetings(fetched)) && Contains(e.text, keyword)
                          && r == DietRecord(e.speech.speechID, e.speech.speaker, e.meeting.nameOfMeeting, e.meeting.date, e.text)
  {
    var walk := FetchWalk(fetched);
    var entries := Matching(walk.entries, keyword);
    var result := FirstMatches(fetched, keyword, maxRecords);
    MatchingIff(walk.entries, keyword);
    ProjectFields(entries);
    MeetingWalkSound(Meetings(fetched));
    assert walk.entries == [] || walk == MeetingWalk(Meetings(fetched));
    forall r | r in result
      ensures exists e :: Heard(e, Meetings(fetched)) && Contains(e.text, keyword)
                          && r == DietRecord(e.speech.speechID, e.speech.speaker, e.meeting.nameOfMeeting, e.meeting.date, e.text)
    {
      var k :| 0 <= k < |result| && result[k] == r;
      assert entries[k] in entries;
      assert Heard(entries[k], Meetings(fetched));
    }
  }

  /**
   * Completeness: when nothing crashes and fewer speeches match than the cap, every matching
   * speech of the response is returned.
   */
  lemma FirstMatchesComplete(fetched: Fetched, keyword: string, maxRecords: int)
    requires !FetchWalk(fetched).broken
    requires |AllMatches(fetched, keyword)| < Cap(maxRecords)
    ensures forall e :: Heard(e, Meetings(fetched)) && Contains(e.text, keyword) ==>
              DietRecord(e.speech.speechID, e.speech.speaker, e.meeting.nameOfMeeting, e.meeting.date, e.text)
                in FirstMatches(fetched, keyword, maxRecords)
  {
    var walk := FetchWalk(fetched);
    var entries := Matching(walk.entries, keyword);
    if fetched.Decoded? && fetched.response.meetingRecord.Present? {
      MeetingWalkComplete(Meetings(fetched));
    }
    MatchingIff(walk.entries, keyword);
    ProjectFields(entries);
    forall e | Heard(e, Meetings(fetched)) && Contains(e.text, keyword)
      ensures DietRecord(e.speech.speechID, e.speech.speaker, e.meeting.nameOfMeeting, e.meeting.date, e.text)
                in FirstMatches(fetched, keyword, maxRecords)
    {
      assert e in entries;
      var k :| 0 <= k < |entries| && entries[k] == e;
      assert Project(entries)[k] == DietRecord(e.speech.speechID, e.speech.speaker, e.meeting.nameOfMeeting, e.meeting.date, e.text);
    }
  }

  /** With the empty keyword every visited speech yields a record, up to the cap. */
  lemma FirstMatchesEmptyKeyword(fetched: Fetched)
    ensures AllMatches(fetched, "") == Project(FetchWalk(fetched).entries)
  {
    EmptyKeywordKeepsAll(FetchWalk(fetched).entries);
  }

  /** The default call returns at most ten records. */
  lemma DefaultCallReturnsAtMostTen(fetched: Fetched)
    ensures |FirstMatches(fetched, DefaultKeyword, DefaultMaxRecords)| <= 10
  {
  }

  // ---------------------------------------------------------------------------------------
  // The loop itself
  // ---------------------------------------------------------------------------------------

  method FetchDietRecords(fetched: Fetched, keyword: string := DefaultKeyword, maxRecords: int := DefaultMaxRecords)
    returns (records: seq<DietRecord>)
    ensures records == FirstMatches(fetched, keyword, maxRecords)
  {
    if fetched.RequestFailed? {
      return [];
    }
    var meetings: seq<Option<Meeting>>;
    match fetched.response.meetingRecord {
      case Absent => meetings := [];
      case Null => return [];
      case Present(ms) => meetings := ms;
    }
    assert FetchWalk(fetched) == MeetingWalk(meetings);
    records := [];
    var i := 0;
    while i < |meetings|
      invariant 0 <= i <= |meetings|
      invariant !MeetingWalk(meetings[..i]).broken
      invariant records == Project(Matching(MeetingWalk(meetings[..i]).entries, keyword))
      invariant |records| < Cap(maxRecords)
    {
      if meetings[i].None? {
        CrashAtMeeting(meetings, i, keyword, maxRecords);
        return [];
      }
      var meeting := meetings[i].value;
      var speeches: seq<Option<Speech>>;
      match meeting.speechRecord {
        case Absent => speeches := [];
        case Null =>
          CrashAtMeeting(meetings, i, keyword, maxRecords);
          return [];
        case Present(ss) => speeches := ss;
      }
      assert MeetingStep(meetings[i]) == SpeechWalk(meeting, speeches);
      var j := 0;
      StartMeeting(MeetingWalk(meetings[..i]), meeting, speeches);
      while j < |speeches|
        invariant 0 <= j <= |speeches|
        invariant !SpeechWalk(meeting, speeches[..j]).broken
        invariant records == Project(Matching(MeetingWalk(meetings[..i]).entries + SpeechWalk(meeting, speeches[..j]).entries, keyword))
        invariant |records| < Cap(maxRecords)
      {
        if speeches[j].None? {
          CrashAtSpeech(meetings, i, meeting, speeches, j, keyword, maxRecords);
          return [];
        }
        var speech := speeches[j].value;
        var speechText: string;
        match speech.speech {
          case Absent => speechText := "";
          case Null =>
            CrashAtSpeech(meetings, i, meeting, speeches, j, keyword, maxRecords);
            return [];
          case Present(t) => speechText := t;
        }
        AdvanceSpeech(MeetingWalk(meetings[..i]), meeting, speeches, j, speechText, keyword);
        if Contains(speechText, keyword) {
          records := records + [DietRecord(speech.speechID, speech.speaker, meeting.nameOfMeeting, meeting.date, speechText)];
          if |records| >= maxRecords {
            CapAtSpeech(meetings, i, meeting, speeches, j, keyword, maxRecords);
            return records;
          }
        }
        j := j + 1;
      }
      FinishMeeting(meetings, i, meeting, speeches);
      i := i + 1;
    }
    assert meetings[..i] == meetings;
  }

  /** The loop is at a `null` meeting, or at one whose `speechRecord` is `null`: the call returns `[]`. */
  lemma CrashAtMeeting(meetings: seq<Option<Meeting>>, i: nat, keyword: string, maxRecords: int)
    requires i < |meetings| && MeetingStep(meetings[i]) == Crash
    requires !MeetingWalk(meetings[..i]).broken
    requires |Project(Matching(MeetingWalk(meetings[..i]).entries, keyword))| < Cap(maxRecords)
    ensures Harvest(MeetingWalk(meetings), keyword, maxRecords) == []
  {
    MeetingWalkSnoc(meetings, i);
    MeetingWalkSplit(meetings, i + 1);
    assert MeetingWalk(meetings[..i + 1]) == Walk(MeetingWalk(meetings[..i]).entries, true);
    HarvestAfterCrash(MeetingWalk(meetings[..i + 1]), MeetingWalk(meetings[i + 1..]), keyword, maxRecords);
  }

  /** Entering the inner loop: no speech of the meeting has been visited yet. */
  lemma StartMeeting(done: Walk, m: Meeting, speeches: seq<Option<Speech>>)
    ensures SpeechWalk(m, speeches[..0]) == EmptyWalk
    ensures done.entries + SpeechWalk(m, speeches[..0]).entries == done.entries
  {
    assert speeches[..0] == [];
  }

  /** Leaving the inner loop: the meeting's walk is done. */
  lemma FinishMeeting(meetings: seq<Option<Meeting>>, i: nat, m: Meeting, speeches: seq<Option<Speech>>)
    requires i < |meetings| && MeetingStep(meetings[i]) == SpeechWalk(m, speeches)
    requires !MeetingWalk(meetings[..i]).broken && !SpeechWalk(m, speeches[..|speeches|]).broken
    ensures !MeetingWalk(meetings[..i + 1]).broken
    ensures MeetingWalk(meetings[..i + 1]).entries
         == MeetingWalk(meetings[..i]).entries + SpeechWalk(m, speeches[..|speeches|]).entries
  {
    assert speeches[..|speeches|] == speeches;
    MeetingWalkSnoc(meetings, i);
  }

  /** One speech with a text: the walk so far grows by that speech, and its record is kept iff it matches. */
  lemma AdvanceSpeech(done: Walk, m: Meeting, speeches: seq<Option<Speech>>, j: nat, text: string, keyword: string)
    requires j < |speeches| && speeches[j].Some? && TextOf(speeches[j].value) == Some(text)
    requires !SpeechWalk(m, speeches[..j]).broken
    ensures !SpeechWalk(m, speeches[..j + 1]).broken
    ensures Project(Matching(done.entries + SpeechWalk(m, speeches[..j + 1]).entries, keyword))
         == Project(Matching(done.entries + SpeechWalk(m, speeches[..j]).entries, keyword))
          + (if Contains(text, keyword)
             then [DietRecord(speeches[j].value.speechID, speeches[j].value.speaker, m.nameOfMeeting, m.date, text)]
             else [])
  {
    var heard := SpeechWalk(m, speeches[..j]);
    var entry := Entry(m, speeches[j].value, text);
    SpeechWalkSnoc(m, speeches, j);
    assert SpeechWalk(m, speeches[..j + 1]).entries == heard.entries + [entry];
    assert done.entries + SpeechWalk(m, speeches[..j + 1]).entries == (done.entries + heard.entries) + [entry];
    MatchingAppend(done.entries + heard.entries, [entry], keyword);
    ProjectAppend(Matching(done.entries + heard.entries, keyword), Matching([entry], keyword));
  }

  /** The loop is at a `null` speech, or at one whose text is `null`: the call returns `[]`. */
  lemma CrashAtSpeech(meetings: seq<Option<Meeting>>, i: nat, m: Meeting, speeches: seq<Option<Speech>>, j: nat,
                      keyword: string, maxRecords: int)
    requires i < |meetings| && j < |speeches|
    requires MeetingStep(meetings[i]) == SpeechWalk(m, speeches) && SpeechStep(m, speeches[j]) == Crash
    requires !MeetingWalk(meetings[..i]).broken && !SpeechWalk(m, speeches[..j]).broken
    requires |Project(Matching(MeetingWalk(meetings[..i]).entries + SpeechWalk(m, speeches[..j]).entries, keyword))| < Cap(maxRecords)
    ensures Harvest(MeetingWalk(meetings), keyword, maxRecords) == []
  {
    var done, heard := MeetingWalk(meetings[..i]), SpeechWalk(m, speeches[..j]);
    InnerPosition(meetings, i, m, speeches, j);
    assert Then(Then(done, heard), SpeechStep(m, speeches[j])) == Walk(done.entries + heard.entries, true);
    HarvestAfterCrash(Then(Then(done, heard), SpeechStep(m, speeches[j])),
                      Then(SpeechWalk(m, speeches[j + 1..]), MeetingWalk(meetings[i + 1..])),
                      keyword, maxRecords);
  }

  /** The record of speech `j` brought the count to the cap: the call returns what it has. */
  lemma CapAtSpeech(meetings: seq<Option<Meeting>>, i: nat, m: Meeting, speeches: seq<Option<Speech>>, j: nat,
                    keyword: string, maxRecords: int)
    requires i < |meetings| && j < |speeches|
    requires MeetingStep(meetings[i]) == SpeechWalk(m, speeches)
    requires !MeetingWalk(meetings[..i]).broken && !SpeechWalk(m, speeches[..j + 1]).broken
    requires |Project(Matching(MeetingWalk(meetings[..i]).entries + SpeechWalk(m, speeches[..j + 1]).entries, keyword))| == Cap(maxRecords)
    ensures Harvest(MeetingWalk(meetings), keyword, maxRecords)
         == Project(Matching(MeetingWalk(meetings[..i]).entries + SpeechWalk(m, speeches[..j + 1]).entries, keyword))
  {
    var done, heard := MeetingWalk(meetings[..i]), SpeechWalk(m, speeches[..j]);
    InnerPosition(meetings, i, m, speeches, j);
    SpeechWalkSnoc(m, speeches, j);
    var upTo := Then(Then(done, heard), SpeechStep(m, speeches[j]));
    ThenAssoc(done, heard, SpeechStep(m, speeches[j]));
    assert upTo.entries == done.entries + SpeechWalk(m, speeches[..j + 1]).entries;
    HarvestAtCap(upTo, Then(SpeechWalk(m, speeches[j + 1..]), MeetingWalk(meetings[i + 1..])), keyword, maxRecords);
  }

  // ---------------------------------------------------------------------------------------
  // Lemmas the loop relies on
  // ---------------------------------------------------------------------------------------

  lemma ThenLeftUnit(w: Walk)
    ensures Then(EmptyWalk, w) == w
  {
  }

  lemma ThenRightUnit(w: Walk)
    ensures Then(w, EmptyWalk) == w
  {
  }

  lemma ThenAssoc(a: Walk, b: Walk, c: Walk)
    ensures Then(Then(a, b), c) == Then(a, Then(b, c))
  {
    if !a.broken && !b.broken {
      assert (a.entries + b.entries) + c.entries == a.entries + (b.entries + c.entries);
    }
  }

  /** Walking a concatenation of speech lists walks the first list, then the second. */
  lemma {:induction false} SpeechWalkAppend(m: Meeting, a: seq<Option<Speech>>, b: seq<Option<Speech>>)
    ensures SpeechWalk(m, a + b) == Then(SpeechWalk(m, a), SpeechWalk(m, b))
    decreases |a|
  {
    if a == [] {
      assert a + b == b;
      ThenLeftUnit(SpeechWalk(m, b));
    } else {
      assert (a + b)[0] == a[0] && (a + b)[1..] == a[1..] + b;
      SpeechWalkAppend(m, a[1..], b);
      ThenAssoc(SpeechStep(m, a[0]), SpeechWalk(m, a[1..]), SpeechWalk(m, b));
    }
  }

  /** Walking a concatenation of meeting lists walks the first list, then the second. */
  lemma {:induction false} MeetingWalkAppend(a: seq<Option<Meeting>>, b: seq<Option<Meeting>>)
    ensures MeetingWalk(a + b) == Then(MeetingWalk(a), MeetingWalk(b))
    decreases |a|
  {
    if a == [] {
      assert a + b == b;
      ThenLeftUnit(MeetingWalk(b));
    } else {
      assert (a + b)[0] == a[0] && (a + b)[1..] == a[1..] + b;
      MeetingWalkAppend(a[1..], b);
      ThenAssoc(MeetingStep(a[0]), MeetingWalk(a[1..]), MeetingWalk(b));
    }
  }

  lemma SpeechWalkSplit(m: Meeting, speeches: seq<Option<Speech>>, k: nat)
    requires k <= |speeches|
    ensures SpeechWalk(m, speeches) == Then(SpeechWalk(m, speeches[..k]), SpeechWalk(m, speeches[k..]))
  {
    assert speeches == speeches[..k] + speeches[k..];
    SpeechWalkAppend(m, speeches[..k], speeches[k..]);
  }

  lemma MeetingWalkSplit(meetings: seq<Option<Meeting>>, k: nat)
    requires k <= |meetings|
    ensures MeetingWalk(meetings) == Then(MeetingWalk(meetings[..k]), MeetingWalk(meetings[k..]))
  {
    assert meetings == meetings[..k] + meetings[k..];
    MeetingWalkAppend(meetings[..k], meetings[k..]);
  }

  lemma SpeechWalkSnoc(m: Meeting, speeches: seq<Option<Speech>>, j: nat)
    requires j < |speeches|
    ensures SpeechWalk(m, speeches[..j + 1]) == Then(SpeechWalk(m, speeches[..j]), SpeechStep(m, speeches[j]))
  {
    assert speeches[..j + 1] == speeches[..j] + [speeches[j]];
    SpeechWalkAppend(m, speeches[..j], [speeches[j]]);
    assert [speeches[j]][1..] == [];
    ThenRightUnit(SpeechStep(m, speeches[j]));
  }

  lemma MeetingWalkSnoc(meetings: seq<Option<Meeting>>, i: nat)
    requires i < |meetings|
    ensures MeetingWalk(meetings[..i + 1]) == Then(MeetingWalk(meetings[..i]), MeetingStep(meetings[i]))
  {
    assert meetings[..i + 1] == meetings[..i] + [meetings[i]];
    MeetingWalkAppend(meetings[..i], [meetings[i]]);
    assert [meetings[i]][1..] == [];
    ThenRightUnit(MeetingStep(meetings[i]));
  }

  /** Where the walk of all meetings stands when the loop is at speech `j` of meeting `i`. */
  lemma InnerPosition(meetings: seq<Option<Meeting>>, i: nat, m: Meeting, speeches: seq<Option<Speech>>, j: nat)
    requires i < |meetings| && j < |speeches|
    requires MeetingStep(meetings[i]) == SpeechWalk(m, speeches)
    ensures MeetingWalk(meetings)
         == Then(Then(Then(MeetingWalk(meetings[..i]), SpeechWalk(m, speeches[..j])), SpeechStep(m, speeches[j])),
                 Then(SpeechWalk(m, speeches[j + 1..]), MeetingWalk(meetings[i + 1..])))
  {
    var done, heard, step := MeetingWalk(meetings[..i]), SpeechWalk(m, speeches[..j]), SpeechStep(m, speeches[j]);
    var restSpeeches, restMeetings := SpeechWalk(m, speeches[j + 1..]), MeetingWalk(meetings[i + 1..]);
    MeetingWalkSplit(meetings, i + 1);
    MeetingWalkSnoc(meetings, i);
    SpeechWalkSplit(m, speeches, j + 1);
    SpeechWalkSnoc(m, speeches, j);
    // MeetingWalk(meetings) == Then(Then(done, Then(Then(heard, step), restSpeeches)), restMeetings)
    ThenAssoc(heard, step, restSpeeches);
    ThenAssoc(done, heard, Then(step, restSpeeches));
    ThenAssoc(Then(done, heard), step, restSpeeches);
    ThenAssoc(Then(Then(done, heard), step), restSpeeches, restMeetings);
  }

  lemma {:induction false} MatchingAppend(a: seq<Entry>, b: seq<Entry>, keyword: string)
    ensures Matching(a + b, keyword) == Matching(a, keyword) + Matching(b, keyword)
    decreases |a|
  {
    if a == [] {
      assert a + b == b;
    } else {
      assert (a + b)[0] == a[0] && (a + b)[1..] == a[1..] + b;
      MatchingAppend(a[1..], b, keyword);
    }
  }

  lemma {:induction false} ProjectAppend(a: seq<Entry>, b: seq<Entry>)
    ensures Project(a + b) == Project(a) + Project(b)
    decreases |a|
  {
    if a == [] {
      assert a + b == b;
    } else {
      assert (a + b)[0] == a[0] && (a + b)[1..] == a[1..] + b;
      ProjectAppend(a[1..], b);
    }
  }

  /** A walk that crashed before reaching the cap yields no records, whatever follows. */
  lemma HarvestAfterCrash(w: Walk, rest: Walk, keyword: string, maxRecords: int)
    requires w.broken
    requires |Project(Matching(w.entries, keyword))| < Cap(maxRecords)
    ensures Harvest(Then(w, rest), keyword, maxRecords) == []
  {
  }

  /** Once the records of a walk reach the cap, what follows it does not matter. */
  lemma HarvestAtCap(w: Walk, rest: Walk, keyword: string, maxRecords: int)
    requires |Project(Matching(w.entries, keyword))| == Cap(maxRecords)
    ensures Harvest(Then(w, rest), keyword, maxRecords) == Project(Matching(w.entries, keyword))
  {
    if !w.broken {
      MatchingAppend(w.entries, rest.entries, keyword);
      ProjectAppend(Matching(w.entries, keyword), Matching(rest.entries, keyword));
    }
  }
}
