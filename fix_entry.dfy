/**
  src/module/fix/fix-entry.js: the queue of dialogue entries waiting for the
  language fix. `addTask` appends an entry, a timer tick (`entry`) takes the
  head, gives it an id and a timestamp when either is missing and records
  the detected language, and `restartEntryInterval` empties the queue.
 */
module FixEntry {
  import opened Optional
  import opened JsString

  /** `languageEnum.ja` and `languageEnum.en`; their values are defined outside this model. */
  datatype Languages = Languages(ja: string, en: string)

  /** `getPlayerChannel()`: the chat codes of channels where players speak. */
  function PlayerChannels(): seq<string>
  {
    [ "000A",                                                         // Say
      "000B",                                                         // Shout
      "000E",                                                         // Party
      "000D",                                                         // Tell
      "0018",                                                         // FreeCompany
      "001E",                                                         // Yell
      "000F",                                                         // Alliance
      "0010", "0011", "0012", "0013", "0014", "0015", "0016", "0017", // LinkShell
      "0025", "0065", "0066", "0067", "0068", "0069", "006A", "006B", // CWLS
      "001B"                                                          // NoviceNetwork
    ]
  }

  /** `isPlayerChannel(code)` */
  predicate IsPlayerChannel(code: string)
  {
    code in PlayerChannels()
  }

  /** Twenty-four distinct codes. */
  lemma PlayerChannelsDistinct()
    ensures |PlayerChannels()| == 24
    ensures forall i, j :: 0 <= i < j < |PlayerChannels()| ==> PlayerChannels()[i] != PlayerChannels()[j]
  {
  }

  /** The OCR code `003D` and the default dialogue code `0039` are not player channels. */
  lemma SystemCodesNotPlayer()
    ensures !IsPlayerChannel("003D") && !IsPlayerChannel("0039")
  {
  }

  /** `getLanguage(dialogData)`: the player's language on a player channel, the source language elsewhere. */
  function DetectedLanguage(code: string, from: string, fromPlayer: string): (r: string)
    ensures IsPlayerChannel(code) ==> r == fromPlayer
    ensures !IsPlayerChannel(code) ==> r == from
  {
    if IsPlayerChannel(code) then fromPlayer else from
  }

  /** The `from` field after a tick: the detected language when it is Japanese or English, else unchanged. */
  function NewFrom(detected: string, from: string, languages: Languages): string
  {
    if detected == languages.ja then languages.ja
    else if detected == languages.en then languages.en
    else from
  }

  /** The language check can only overwrite `from` with Japanese or English. */
  lemma NewFromValues(detected: string, from: string, languages: Languages)
    ensures NewFrom(detected, from, languages) == from || NewFrom(detected, from, languages) == detected
    ensures NewFrom(detected, from, languages) != from ==> detected == languages.ja || detected == languages.en
  {
  }

  /** Off the player channels a tick never changes `from`. */
  lemma NonPlayerKeepsFrom(code: string, from: string, fromPlayer: string, languages: Languages)
    requires !IsPlayerChannel(code)
    ensures NewFrom(DetectedLanguage(code, from, fromPlayer), from, languages) == from
  {
  }

  /**
    The id and timestamp after a tick at time `now`: a missing (falsy) id or
    timestamp replaces both, with `'id' + now` and `now`.
   */
  function Stamp(id: string, timestamp: int, now: nat): (r: (string, int))
    ensures id != "" && timestamp != 0 ==> r == (id, timestamp)
    ensures now != 0 ==> r.0 != "" && r.1 != 0
    ensures id == "" || timestamp == 0 ==> r == ("id" + NatToString(now), now)
  {
    if id == "" || timestamp == 0 then ("id" + NatToString(now), now) else (id, timestamp)
  }

  /** Once stamped at a non-zero time, an entry keeps its id and timestamp at every later tick. */
  lemma StampStable(id: string, timestamp: int, now: nat, later: nat)
    requires now != 0
    ensures Stamp(Stamp(id, timestamp, now).0, Stamp(id, timestamp, now).1, later) == Stamp(id, timestamp, now)
  {
  }

  class Translation {
    var from: string
    var fromPlayer: string

    constructor (from: string, fromPlayer: string)
      ensures this.from == from && this.fromPlayer == fromPlayer
    {
      this.from := from;
      this.fromPlayer := fromPlayer;
    }
  }

  /**
    A dialogue entry. A missing `id` is `""` and a missing `timestamp` is `0`
    (both falsy in the source); entries built from OCR text have no
    `translation`.
   */
  class DialogData {
    var code: string
    var name: string
    var text: string
    var id: string
    var timestamp: int
    var translation: Option<Translation>

    constructor (code: string, name: string, text: string, id: string, timestamp: int, translation: Option<Translation>)
      ensures this.code == code && this.name == name && this.text == text
      ensures this.id == id && this.timestamp == timestamp && this.translation == translation
    {
      this.code := code;
      this.name := name;
      this.text := text;
      this.id := id;
      this.timestamp := timestamp;
      this.translation := translation;
    }
  }

  /**
    What one tick did: nothing on an empty queue, the head processed, or the
    head taken and stamped but the language check failed with a `TypeError`
    because the entry has no `translation`.
   */
  datatype TickOutcome = Idle | Processed(entry: DialogData) | MissingTranslation(entry: DialogData)

  /** `entryIntervalItem`, with the functions that change it. */
  class EntryQueue {
    var items: seq<DialogData>

    constructor ()
      ensures items == []
    {
      items := [];
    }

    /** `addTask(dialogData)`: append at the tail. */
    method AddTask(dialogData: DialogData)
      modifies this
      ensures items == old(items) + [dialogData]
    {
      items := items + [dialogData];
    }

    /** `restartEntryInterval()`: the queue is emptied (the timer itself is not modelled). */
    method Restart()
      modifies this
      ensures items == []
    {
      items := [];
    }

    /** `entry()` at time `now`: take the head, stamp it, check its language. */
    method Tick(now: nat, languages: Languages) returns (outcome: TickOutcome)
      modifies this
      modifies if items == [] then {} else {items[0]}
      modifies if items == [] || items[0].translation.None? then {} else {items[0].translation.value}
      ensures old(items) == [] ==> outcome == Idle && items == []
      ensures old(items) != [] ==> items == old(items)[1..]
      ensures old(items) != [] ==>
        var d := old(items)[0];
        && d.code == old(d.code) && d.name == old(d.name) && d.text == old(d.text)
        && d.translation == old(d.translation)
        && (d.id, d.timestamp) == Stamp(old(d.id), old(d.timestamp), now)
        && (d.translation.None? ==> outcome == MissingTranslation(d))
        && (d.translation.Some? ==>
              outcome == Processed(d)
              && d.translation.value.fromPlayer == old(d.translation.value.fromPlayer)
              && d.translation.value.from
                 == NewFrom(DetectedLanguage(d.code, old(d.translation.value.from), old(d.translation.value.fromPlayer)),
                            old(d.translation.value.from), languages))
    {
      if items == [] {
        return Idle;
      }
      var d := items[0];
      items := items[1..];
      if d.id == "" || d.timestamp == 0 {
        d.id := "id" + NatToString(now);
        d.timestamp := now;
      }
      if d.translation.None? {
        return MissingTranslation(d);
      }
      var t := d.translation.value;
      var detected := if IsPlayerChannel(d.code) then t.fromPlayer else t.from;
      if detected == languages.ja {
        t.from := languages.ja;
      } else if detected == languages.en {
        t.from := languages.en;
      }
      outcome := Processed(d);
    }
  }
}
