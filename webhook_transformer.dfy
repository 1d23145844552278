/** WebhookTransformer: turning validated rows into webhook events, with every
    row's column names rewritten to canonical snake_case keys. */
module WebhookTransformer {
  import opened Wrappers
  import opened Strings
  import opened JsObject
  import opened Types
  import Seqs

  // ---------------------------------------------------------------------
  // The key pipeline:
  //   trim, toLowerCase, /\s+/g -> '_', /[^a-z0-9_]/g -> '', /_+/g -> '_',
  //   /^_|_$/g -> ''
  // ---------------------------------------------------------------------

  /** The class `[a-z0-9_]`. */
  predicate IsKeyChar(c: char)
  {
    ('a' <= c <= 'z') || ('0' <= c <= '9') || c == '_'
  }

  predicate IsUnderscore(c: char)
  {
    c == '_'
  }

  predicate AllKeyChars(s: string)
  {
    forall i :: 0 <= i < |s| ==> IsKeyChar(s[i])
  }

  predicate NoDoubleUnderscore(s: string)
  {
    forall i :: 0 <= i < |s| - 1 ==> !(s[i] == '_' && s[i + 1] == '_')
  }

  /** No `__`, and no `_` at either end. */
  predicate CanonicalEnds(s: string)
  {
    NoDoubleUnderscore(s) && (s == [] || (s[0] != '_' && s[|s| - 1] != '_'))
  }

  /** The shape of a key the pipeline produces: only `[a-z0-9_]`, no `__`,
      and no `_` at either end. */
  predicate CanonicalForm(s: string)
  {
    AllKeyChars(s) && CanonicalEnds(s)
  }

  /** `s` without its leading characters that satisfy `p`. */
  function DropWhile(p: char -> bool, s: string): (r: string)
    ensures |r| <= |s| && r == s[|s| - |r|..]
    ensures r == [] || !p(r[0])
  {
    if s != [] && p(s[0]) then DropWhile(p, s[1..]) else s
  }

  /** A global replace of the pattern "one or more characters satisfying `p`"
      by `_`: each maximal run of such characters becomes a single `_`. */
  function ReplaceRuns(p: char -> bool, s: string): (r: string)
    ensures |r| <= |s|
    decreases |s|
  {
    if s == [] then []
    else if p(s[0]) then "_" + ReplaceRuns(p, DropWhile(p, s[1..]))
    else [s[0]] + ReplaceRuns(p, s[1..])
  }

  /** The result is empty only for an empty string, and its first character
      stands for the first character of `s`. */
  lemma ReplaceRunsHead(p: char -> bool, s: string)
    ensures s == [] <==> ReplaceRuns(p, s) == []
    ensures s != [] ==> ReplaceRuns(p, s)[0] == (if p(s[0]) then '_' else s[0])
  {
  }

  /** Each character of the result is a `_` or a character of `s` outside the class. */
  lemma {:induction false} ReplaceRunsChars(p: char -> bool, s: string)
    ensures forall i :: 0 <= i < |ReplaceRuns(p, s)| ==>
              ReplaceRuns(p, s)[i] == '_' || (!p(ReplaceRuns(p, s)[i]) && ReplaceRuns(p, s)[i] in s)
    decreases |s|
  {
    if s != [] {
      if p(s[0]) {
        var t := DropWhile(p, s[1..]);
        ReplaceRunsChars(p, t);
        assert forall x :: x in t ==> x in s by {
          assert forall j :: 0 <= j < |t| ==> t[j] == s[|s| - |t| + j];
        }
      } else {
        ReplaceRunsChars(p, s[1..]);
        assert forall x :: x in s[1..] ==> x in s;
      }
    }
  }

  /** When `_` itself is in the class, no two `_` of the result are adjacent. */
  lemma {:induction false} ReplaceRunsNoDouble(p: char -> bool, s: string)
    requires p('_')
    ensures NoDoubleUnderscore(ReplaceRuns(p, s))
    decreases |s|
  {
    if s != [] {
      if p(s[0]) {
        var t := DropWhile(p, s[1..]);
        ReplaceRunsNoDouble(p, t);
        ReplaceRunsHead(p, t);
      } else {
        ReplaceRunsNoDouble(p, s[1..]);
      }
    }
  }

  /** `/[^a-z0-9_]/g -> ''`: keep only the key characters. */
  function KeepKeyChars(s: string): (r: string)
    ensures |r| <= |s|
  {
    Seqs.Filter(IsKeyChar, s)
  }

  /** `/^_|_$/g -> ''`: drop one leading and one trailing underscore. */
  function StripEdgeUnderscores(s: string): (r: string)
    ensures |r| <= |s|
  {
    var t := if s != [] && s[0] == '_' then s[1..] else s;
    if t != [] && t[|t| - 1] == '_' then t[..|t| - 1] else t
  }

  /** Stripping keeps characters of `s`, and on a string without `__` it
      leaves no `_` at either end. */
  lemma StripEdgeChars(s: string)
    ensures forall x :: x in StripEdgeUnderscores(s) ==> x in s
    ensures NoDoubleUnderscore(s) ==> CanonicalEnds(StripEdgeUnderscores(s))
  {
    var t := if s != [] && s[0] == '_' then s[1..] else s;
    assert forall j :: 0 <= j < |t| ==> t[j] == s[|s| - |t| + j];
  }

  /** The snake_case key the transformer stores a column under. */
  function CanonicalKey(key: string): string
  {
    var spaced := ReplaceRuns(IsSpace, Lower(Trim(key)));
    StripEdgeUnderscores(ReplaceRuns(IsUnderscore, KeepKeyChars(spaced)))
  }

  /** Every key the pipeline produces is in canonical form. */
  lemma CanonicalKeyForm(key: string)
    ensures CanonicalForm(CanonicalKey(key))
  {
    var spaced := ReplaceRuns(IsSpace, Lower(Trim(key)));
    var kept := KeepKeyChars(spaced);
    var collapsed := ReplaceRuns(IsUnderscore, kept);
    ReplaceRunsChars(IsUnderscore, kept);
    ReplaceRunsNoDouble(IsUnderscore, kept);
    assert AllKeyChars(collapsed) by {
      forall i | 0 <= i < |collapsed| ensures IsKeyChar(collapsed[i]) {
        assert collapsed[i] == '_' || collapsed[i] in kept;
      }
    }
    StripEdgeChars(collapsed);
  }

  /** Runs of a class that does not occur are left alone. */
  lemma {:induction false} ReplaceRunsAbsent(p: char -> bool, s: string)
    requires forall i :: 0 <= i < |s| ==> !p(s[i])
    ensures ReplaceRuns(p, s) == s
    decreases |s|
  {
    if s != [] {
      ReplaceRunsAbsent(p, s[1..]);
    }
  }

  /** Collapsing underscore runs leaves a string without `__` alone. */
  lemma {:induction false} CollapseFixes(s: string)
    requires NoDoubleUnderscore(s)
    ensures ReplaceRuns(IsUnderscore, s) == s
    decreases |s|
  {
    if s != [] {
      assert NoDoubleUnderscore(s[1..]);
      if s[0] == '_' {
        assert DropWhile(IsUnderscore, s[1..]) == s[1..];
      }
      CollapseFixes(s[1..]);
    }
  }

  /** Key characters are neither upper-case letters nor whitespace. */
  lemma KeyCharsPlain(s: string)
    requires AllKeyChars(s)
    ensures forall i :: 0 <= i < |s| ==> !('A' <= s[i] <= 'Z')
    ensures forall i :: 0 <= i < |s| ==> !IsSpace(s[i])
  {
  }

  /** Trimming and lower-casing leave a key in canonical form alone. */
  lemma TrimLowerFix(key: string)
    requires CanonicalForm(key)
    ensures Lower(Trim(key)) == key
  {
    KeyCharsPlain(key);
    LowerOfNoUpper(key);
    TrimOfTrimmed(key);
  }

  /** The replacements leave a key in canonical form alone. */
  lemma ReplaceStepsFix(key: string)
    requires CanonicalForm(key)
    ensures ReplaceRuns(IsSpace, key) == key
    ensures KeepKeyChars(key) == key
    ensures ReplaceRuns(IsUnderscore, key) == key
    ensures StripEdgeUnderscores(key) == key
  {
    KeyCharsPlain(key);
    ReplaceRunsAbsent(IsSpace, key);
    Seqs.FilterAll(IsKeyChar, key);
    CollapseFixes(key);
  }

  /** A key already in canonical form is its own canonical key. */
  lemma CanonicalKeyFixes(key: string)
    requires CanonicalForm(key)
    ensures CanonicalKey(key) == key
  {
    TrimLowerFix(key);
    ReplaceStepsFix(key);
  }

  /** Canonicalising a key twice is canonicalising it once. */
  lemma CanonicalKeyIdempotent(key: string)
    ensures CanonicalKey(CanonicalKey(key)) == CanonicalKey(key)
  {
    CanonicalKeyForm(key);
    CanonicalKeyFixes(CanonicalKey(key));
  }

  // ---------------------------------------------------------------------
  // transformToSnakeCase
  // ---------------------------------------------------------------------

  /** A value the loop skips: `undefined`, `null` or `''`. */
  predicate IsSkipped(v: Cell)
  {
    v.Missing? || v.s == ""
  }

  /** The assignment one source entry makes when keys are rewritten by
      `keyOf`, if any: none for a skipped value or a key that rewrites to '',
      otherwise the rewritten key and the trimmed value. */
  function EntryPair(keyOf: string -> string, key: string, value: Cell): seq<(string, string)>
  {
    if IsSkipped(value) || keyOf(key) == "" then [] else [(keyOf(key), Trim(value.s))]
  }

  function EntryStep(keyOf: string -> string): ((string, Cell), nat) -> seq<(string, string)>
  {
    (e: (string, Cell), i: nat) => EntryPair(keyOf, e.0, e.1)
  }

  /** The assignments of the whole row, in entry order. */
  function NormalizedPairs(keyOf: string -> string, data: Row): seq<(string, string)>
  {
    Seqs.FlatMapIndexed(EntryStep(keyOf), data)
  }

  /** The object transformToSnakeCase returns for `data`. */
  function Normalize(data: Row): Obj<string>
  {
    FromPairs(NormalizedPairs(CanonicalKey, data))
  }

  /** One more entry adds its assignment at the end. */
  lemma NormalizedPairsStep(keyOf: string -> string, data: Row, i: nat)
    requires i < |data|
    ensures NormalizedPairs(keyOf, data[..i + 1]) ==
            NormalizedPairs(keyOf, data[..i]) + EntryPair(keyOf, data[i].0, data[i].1)
  {
    Seqs.FlatMapStep(EntryStep(keyOf), data, i);
  }

  /** The `for ... of Object.entries(data)` loop, assigning into `transformed`. */
  method TransformToSnakeCase(data: Row) returns (transformed: Obj<string>)
    ensures transformed == Normalize(data)
  {
    transformed := [];
    for i := 0 to |data|
      invariant transformed == FromPairs(NormalizedPairs(CanonicalKey, data[..i]))
    {
      var (key, value) := data[i];
      ghost var before := NormalizedPairs(CanonicalKey, data[..i]);
      NormalizedPairsStep(CanonicalKey, data, i);
      if value.Missing? || value.s == "" {
        assert EntryPair(CanonicalKey, key, value) == [];
        assert NormalizedPairs(CanonicalKey, data[..i + 1]) == before + [] == before;
        continue;
      }
      var snakeKey := CanonicalKey(key);
      if snakeKey != "" {
        assert EntryPair(CanonicalKey, key, value) == [(snakeKey, Trim(value.s))];
        FromPairsAppend(before, snakeKey, Trim(value.s));
        transformed := Set(transformed, snakeKey, Trim(value.s));
      } else {
        assert EntryPair(CanonicalKey, key, value) == [];
        assert NormalizedPairs(CanonicalKey, data[..i + 1]) == before + [] == before;
      }
    }
    assert data[..|data|] == data;
  }

  /** A pair is assigned exactly when some entry with a value that is not
      skipped has a key that rewrites to its (non-empty) key, and the value is
      that entry's trimmed value. */
  lemma NormalizedPairsMember(keyOf: string -> string, data: Row, k: string, v: string)
    ensures (k, v) in NormalizedPairs(keyOf, data) <==>
            exists i :: 0 <= i < |data| && !IsSkipped(data[i].1) && k != "" &&
                        keyOf(data[i].0) == k && Trim(data[i].1.s) == v
  {
    Seqs.FlatMapMember(EntryStep(keyOf), data, (k, v));
    if (k, v) in NormalizedPairs(keyOf, data) {
      var i :| 0 <= i < |data| && (k, v) in EntryStep(keyOf)(data[i], i);
      assert !IsSkipped(data[i].1) && k != "" && keyOf(data[i].0) == k && Trim(data[i].1.s) == v;
    }
    if exists i :: 0 <= i < |data| && !IsSkipped(data[i].1) && k != "" &&
                   keyOf(data[i].0) == k && Trim(data[i].1.s) == v {
      var i :| 0 <= i < |data| && !IsSkipped(data[i].1) && k != "" &&
               keyOf(data[i].0) == k && Trim(data[i].1.s) == v;
      assert (k, v) in EntryStep(keyOf)(data[i], i);
    }
  }

  /** The keys of the result: each appears once, is non-empty and in
      canonical form, and comes from an entry whose value is not skipped. */
  lemma NormalizeKeys(data: Row, k: string)
    ensures UniqueKeys(Normalize(data))
    ensures HasKey(Normalize(data), k) <==>
            exists i :: 0 <= i < |data| && !IsSkipped(data[i].1) && k != "" && CanonicalKey(data[i].0) == k
    ensures HasKey(Normalize(data), k) ==> k != "" && CanonicalForm(k)
  {
    var ps := NormalizedPairs(CanonicalKey, data);
    if HasKey(ps, k) {
      var j :| 0 <= j < |ps| && Keys(ps)[j] == k;
      NormalizedPairsMember(CanonicalKey, data, k, ps[j].1);
      var i :| 0 <= i < |data| && !IsSkipped(data[i].1) && k != "" && CanonicalKey(data[i].0) == k;
      CanonicalKeyForm(data[i].0);
    }
    if exists i :: 0 <= i < |data| && !IsSkipped(data[i].1) && k != "" && CanonicalKey(data[i].0) == k {
      var i :| 0 <= i < |data| && !IsSkipped(data[i].1) && k != "" && CanonicalKey(data[i].0) == k;
      NormalizedPairsMember(CanonicalKey, data, k, Trim(data[i].1.s));
      var j :| 0 <= j < |ps| && ps[j] == (k, Trim(data[i].1.s));
      assert Keys(ps)[j] == k;
    }
  }

  /** Every stored value is the trimmed value of an entry whose key
      canonicalises to the stored key, and whose value is not skipped. */
  lemma NormalizeValueOrigin(data: Row, j: nat)
    requires j < |Normalize(data)|
    ensures exists i :: 0 <= i < |data| && !IsSkipped(data[i].1) &&
                        Normalize(data)[j] == (CanonicalKey(data[i].0), Trim(data[i].1.s))
  {
    var ps := NormalizedPairs(CanonicalKey, data);
    FromPairsEntryOrigin(ps, j);
    var p :| 0 <= p < |ps| && ps[p] == Normalize(data)[j];
    NormalizedPairsMember(CanonicalKey, data, ps[p].0, ps[p].1);
  }

  /** Every stored value is already trimmed. */
  lemma NormalizeValuesTrimmed(data: Row, j: nat)
    requires j < |Normalize(data)|
    ensures Trim(Normalize(data)[j].1) == Normalize(data)[j].1
  {
    NormalizeValueOrigin(data, j);
    var i :| 0 <= i < |data| && !IsSkipped(data[i].1) &&
             Normalize(data)[j] == (CanonicalKey(data[i].0), Trim(data[i].1.s));
    TrimIdempotent(data[i].1.s);
  }

  /** Entries from position `i` on that do not write key `k` leave its last
      assigned value as it was after the first `i` entries. */
  lemma {:induction false} NormalizedPairsSuffix(keyOf: string -> string, data: Row, i: nat, k: string)
    requires i <= |data|
    requires forall q :: i <= q < |data| ==> IsSkipped(data[q].1) || keyOf(data[q].0) != k
    ensures LastValue(NormalizedPairs(keyOf, data), k) == LastValue(NormalizedPairs(keyOf, data[..i]), k)
    decreases |data| - i
  {
    if i < |data| {
      NormalizedPairsSuffix(keyOf, data, i + 1, k);
      Seqs.FlatMapStep(EntryStep(keyOf), data, i);
      var ps := NormalizedPairs(keyOf, data[..i]);
      var d := EntryPair(keyOf, data[i].0, data[i].1);
      LastValueAppendOther(ps, d, k);
    } else {
      assert data[..i] == data;
    }
  }

  /** Last write wins: when several entries canonicalise to the same key, the
      stored value is the trimmed value of the last of them whose value is not
      skipped. */
  lemma LastWriteWins(data: Row, i: nat)
    requires i < |data| && !IsSkipped(data[i].1) && CanonicalKey(data[i].0) != ""
    requires forall q :: i < q < |data| ==> IsSkipped(data[q].1) || CanonicalKey(data[q].0) != CanonicalKey(data[i].0)
    ensures Get(Normalize(data), CanonicalKey(data[i].0)) == Some(Trim(data[i].1.s))
  {
    var k := CanonicalKey(data[i].0);
    NormalizedPairsSuffix(CanonicalKey, data, i + 1, k);
    Seqs.FlatMapStep(EntryStep(CanonicalKey), data, i);
    FromPairsGet(NormalizedPairs(CanonicalKey, data), k);
  }

  /** A transformed object read back as a row, every value a string. */
  function AsRow(o: Obj<string>): (row: Row)
    ensures |row| == |o|
    ensures forall j :: 0 <= j < |o| ==> row[j] == (o[j].0, Text(o[j].1))
  {
    seq(|o|, j requires 0 <= j < |o| => (o[j].0, Text(o[j].1)))
  }

  /** Pairs whose keys are fixed by `keyOf` and whose values are non-empty and
      trimmed are assigned again exactly as they are. */
  lemma {:induction false} NormalizedPairsOfClean(keyOf: string -> string, ps: Obj<string>, m: nat)
    requires m <= |ps|
    requires forall j :: 0 <= j < |ps| ==>
               ps[j].0 != "" && keyOf(ps[j].0) == ps[j].0 && ps[j].1 != "" && Trim(ps[j].1) == ps[j].1
    ensures NormalizedPairs(keyOf, AsRow(ps)[..m]) == ps[..m]
  {
    var row := AsRow(ps);
    if m == 0 {
      assert row[..0] == [];
    } else {
      var n := m - 1;
      NormalizedPairsOfClean(keyOf, ps, n);
      NormalizedPairsStep(keyOf, row, n);
      assert row[n] == (ps[n].0, Text(ps[n].1));
      assert EntryPair(keyOf, row[n].0, row[n].1) == [ps[n]];
      Seqs.PrefixStep(ps, n);
    }
  }

  /** An object whose keys are fixed by `keyOf` and whose values are
      non-empty and trimmed is transformed into itself. */
  lemma CleanObjectIsFixed(keyOf: string -> string, o: Obj<string>)
    requires UniqueKeys(o)
    requires forall j :: 0 <= j < |o| ==>
               o[j].0 != "" && keyOf(o[j].0) == o[j].0 && o[j].1 != "" && Trim(o[j].1) == o[j].1
    ensures FromPairs(NormalizedPairs(keyOf, AsRow(o))) == o
  {
    NormalizedPairsOfClean(keyOf, o, |o|);
    assert AsRow(o)[..|o|] == AsRow(o) && o[..|o|] == o;
    FromPairsOfUnique(o);
  }

  /** Every entry of a transformed object has a non-empty key that the key
      pipeline leaves unchanged, and a value that trimming leaves unchanged. */
  lemma NormalizeEntriesClean(data: Row, o: Obj<string>)
    requires o == Normalize(data)
    ensures forall j :: 0 <= j < |o| ==>
              o[j].0 != "" && CanonicalKey(o[j].0) == o[j].0 && Trim(o[j].1) == o[j].1
  {
    forall j | 0 <= j < |o|
      ensures o[j].0 != "" && CanonicalKey(o[j].0) == o[j].0 && Trim(o[j].1) == o[j].1
    {
      NormalizeKeys(data, o[j].0);
      assert HasKey(o, o[j].0) by { assert Keys(o)[j] == o[j].0; }
      CanonicalKeyFixes(o[j].0);
      NormalizeValuesTrimmed(data, j);
    }
  }

  /** Transforming a transformed object again changes nothing, as long as no
      stored value is ''. */
  lemma NormalizeIdempotent(data: Row)
    requires forall j :: 0 <= j < |Normalize(data)| ==> Normalize(data)[j].1 != ""
    ensures Normalize(AsRow(Normalize(data))) == Normalize(data)
  {
    var o := Normalize(data);
    NormalizeEntriesClean(data, o);
    CleanObjectIsFixed(CanonicalKey, o);
  }

  /** A whitespace-only value is not skipped (it is not '') but is stored
      trimmed, as ''; a second pass then skips it, so transforming twice is
      not transforming once. */
  lemma WhitespaceValueNotIdempotent(key: string, value: string)
    requires CanonicalForm(key) && key != ""
    requires value != "" && AllSpaces(value)
    ensures Normalize([(key, Text(value))]) == [(key, "")]
    ensures Normalize(AsRow(Normalize([(key, Text(value))]))) == []
  {
    CanonicalKeyFixes(key);
    TrimEmptyIffAllSpaces(value);
    SingleEntryPairs(CanonicalKey, key, Text(value));
    assert EntryPair(CanonicalKey, key, Text(value)) == [(key, "")];
    FromPairsOfUnique([(key, "")]);
    assert AsRow([(key, "")]) == [(key, Text(""))];
    SingleEntryPairs(CanonicalKey, key, Text(""));
  }

  /** A one-entry row makes that entry's assignment only. */
  lemma SingleEntryPairs(keyOf: string -> string, key: string, value: Cell)
    ensures NormalizedPairs(keyOf, [(key, value)]) == EntryPair(keyOf, key, value)
  {
    NormalizedPairsStep(keyOf, [(key, value)], 0);
    assert [(key, value)][..1] == [(key, value)];
  }

  // ---------------------------------------------------------------------
  // transformToWebhookEvents
  // ---------------------------------------------------------------------

  const EventType: string := "patient_data_upload"
  const Source: string := "excel_upload"

  /** The values `uuidv4()` and `new Date().toISOString()` return for one row. */
  datatype EventStamp = EventStamp(eventId: string, transactionId: string, timestamp: string)

  /** `data.map((row, index) => ...)`: one event per row, in order, taking the
      ids and the timestamp of the same position in `stamps`. */
  function TransformToWebhookEvents(data: seq<Row>, fileName: string, stamps: seq<EventStamp>): (events: seq<WebhookEvent>)
    requires |stamps| == |data|
    ensures |events| == |data|
    ensures forall i :: 0 <= i < |data| ==>
              events[i].eventId == stamps[i].eventId &&
              events[i].transactionId == stamps[i].transactionId &&
              events[i].timestamp == stamps[i].timestamp &&
              events[i].eventType == EventType &&
              events[i].data == Normalize(data[i]) &&
              events[i].metadata == Metadata(Source, fileName, i + 2)
  {
    seq(|data|, i requires 0 <= i < |data| =>
      WebhookEvent(stamps[i].eventId, stamps[i].transactionId, stamps[i].timestamp, EventType,
                   Normalize(data[i]), Metadata(Source, fileName, i + 2)))
  }

  /** Events carry the row numbers 2, 3, ... of the sheet, so no two events
      share a row number. */
  lemma EventRowNumbers(data: seq<Row>, fileName: string, stamps: seq<EventStamp>, i: nat, j: nat)
    requires |stamps| == |data| && i < j < |data|
    ensures var events := TransformToWebhookEvents(data, fileName, stamps);
            2 <= events[i].metadata.rowNumber < events[j].metadata.rowNumber
  {
  }

  /** Distinct generated ids give events with distinct ids. */
  lemma DistinctEventIds(data: seq<Row>, fileName: string, stamps: seq<EventStamp>)
    requires |stamps| == |data|
    requires forall i, j :: 0 <= i < j < |stamps| ==> stamps[i].eventId != stamps[j].eventId
    ensures var events := TransformToWebhookEvents(data, fileName, stamps);
            forall i, j :: 0 <= i < j < |events| ==> events[i].eventId != events[j].eventId
  {
  }

  /** Every key of every event's data is non-empty and canonical, and appears once. */
  lemma EventKeysCanonical(data: seq<Row>, fileName: string, stamps: seq<EventStamp>, i: nat, k: string)
    requires |stamps| == |data| && i < |data|
    ensures var d := TransformToWebhookEvents(data, fileName, stamps)[i].data;
            UniqueKeys(d) && (HasKey(d, k) ==> k != "" && CanonicalForm(k))
  {
    NormalizeKeys(data[i], k);
  }
}
