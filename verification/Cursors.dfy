/** The opaque pagination cursor of api/pagination.py: version, timestamp and id, piped together in URL-safe base64. */
module Cursors {
  import opened Options
  import opened Decimals
  import opened DateTimes
  import Base64Url

  const CURSOR_VERSION := "1"

  predicate Ascii(s: string) {
    forall i :: 0 <= i < |s| ==> s[i] < 128 as char
  }

  function ToBytes(s: string): seq<Base64Url.Byte>
    requires Ascii(s)
  {
    if s == [] then [] else [s[0] as int] + ToBytes(s[1..])
  }

  /** UTF-8 decoding of ASCII bytes; `None` stands for anything else. */
  function FromBytes(b: seq<Base64Url.Byte>): Option<string> {
    if b == [] then Some([])
    else if b[0] >= 128 then None
    else
      var rest :- FromBytes(b[1..]);
      Some([b[0] as char] + rest)
  }

  lemma {:induction false} FromToBytes(s: string)
    requires Ascii(s)
    ensures FromBytes(ToBytes(s)) == Some(s)
  {
    if s != [] {
      FromToBytes(s[1..]);
      assert ToBytes(s)[1..] == ToBytes(s[1..]);
      assert s == [s[0]] + s[1..];
    }
  }

  /** `s.split("|", 1)`, `None` when there is no pipe. */
  function SplitAtPipe(s: string): Option<(string, string)> {
    if s == [] then None
    else if s[0] == '|' then Some(([], s[1..]))
    else
      var (head, tail) :- SplitAtPipe(s[1..]);
      Some(([s[0]] + head, tail))
  }

  function RecordOf(t: Timestamp, id: int): string {
    CURSOR_VERSION + ("|" + (IsoFormat(AssumeUtc(t)) + ("|" + Str(id))))
  }

  function EncodeText(record: string): string
    requires Ascii(record)
  {
    Base64Url.Encode(ToBytes(record))
  }

  function EncodeCursor(t: Timestamp, id: int): string {
    RecordIsAscii(t, id);
    EncodeText(RecordOf(t, id))
  }

  function ParseRecord(record: string): Option<(Timestamp, int)> {
    var (version, rest) :- SplitAtPipe(record);
    var (ts, id) :- SplitAtPipe(rest);
    if version != CURSOR_VERSION then None
    else
      var t :- FromIsoFormat(ts);
      var n :- ParseInt(id);
      Some((AssumeUtc(t), n))
  }

  function DecodeCursor(cursor: string): Option<(Timestamp, int)> {
    var bytes :- Base64Url.Decode(cursor);
    var record :- FromBytes(bytes);
    ParseRecord(record)
  }

  /** A missing or empty cursor parameter is no cursor. */
  function ValidateCursor(cursor: Option<string>): Option<(Timestamp, int)> {
    if cursor.None? || cursor.value == "" then None else DecodeCursor(cursor.value)
  }

  lemma RecordIsAscii(t: Timestamp, id: int)
    ensures Ascii(RecordOf(t, id))
  {
    hide IsoFormat;
    IsoChars(AssumeUtc(t));
    ParseStr(id);
    var ts := IsoFormat(AssumeUtc(t));
    assert forall i :: 0 <= i < |ts| ==> ts[i] in ts;
    assert forall i :: 0 <= i < |Str(id)| ==> Str(id)[i] in Str(id);
  }

  lemma {:induction false} SplitAtFirstPipe(head: string, tail: string)
    requires '|' !in head
    ensures SplitAtPipe(head + ("|" + tail)) == Some((head, tail))
    decreases head
  {
    var s := head + ("|" + tail);
    if head == [] {
      assert s[0] == '|' && s[1..] == tail;
    } else {
      assert s[1..] == head[1..] + ("|" + tail);
      SplitAtFirstPipe(head[1..], tail);
      assert [head[0]] + head[1..] == head;
    }
  }

  lemma DecodeText(record: string)
    requires Ascii(record)
    ensures DecodeCursor(EncodeText(record)) == ParseRecord(record)
  {
    hide ParseRecord, Base64Url.Encode, Base64Url.Decode, FromBytes, ToBytes;
    Base64Url.DecodeEncode(ToBytes(record));
    FromToBytes(record);
  }

  /** Decoding an encoded cursor always succeeds, with the same id and the same time (a naive one read as UTC). */
  lemma CursorRoundTrip(t: Timestamp, id: int)
    ensures EncodeCursor(t, id) != ""
    ensures ValidateCursor(Some(EncodeCursor(t, id))) == Some((AssumeUtc(t), id))
    ensures AssumeUtc(t) == (if t.offset == None then t.(offset := Some(0)) else t)
  {
    hide IsoFormat, FromIsoFormat;
    RecordIsAscii(t, id);
    DecodeText(RecordOf(t, id));
    var ts := IsoFormat(AssumeUtc(t));
    IsoChars(AssumeUtc(t));
    ParseStr(id);
    SplitAtFirstPipe(CURSOR_VERSION, ts + ("|" + Str(id)));
    SplitAtFirstPipe(ts, Str(id));
    IsoRoundTrip(AssumeUtc(t));
  }

  lemma {:induction false} SplitFindsPipe(s: string)
    ensures SplitAtPipe(s).None? <==> '|' !in s
    ensures SplitAtPipe(s).Some? ==> s == SplitAtPipe(s).value.0 + ("|" + SplitAtPipe(s).value.1)
    ensures SplitAtPipe(s).Some? ==> '|' !in SplitAtPipe(s).value.0
  {
    if s != [] && s[0] != '|' {
      SplitFindsPipe(s[1..]);
      assert s == [s[0]] + s[1..];
    }
  }

  /** A record with fewer than three fields (at most one pipe) decodes to nothing. */
  lemma ShortRecordsAreRejected(record: string)
    requires Ascii(record)
    requires forall i, j :: 0 <= i < j < |record| ==> record[i] != '|' || record[j] != '|'
    ensures DecodeCursor(EncodeText(record)) == None
  {
    hide DecodeCursor, EncodeText, SplitAtPipe;
    DecodeText(record);
    SplitFindsPipe(record);
    if SplitAtPipe(record).Some? {
      var (version, rest) := SplitAtPipe(record).value;
      SplitFindsPipe(rest);
      forall k | 0 <= k < |rest|
        ensures rest[k] != '|'
      {
        assert record[|version|] == '|' && record[|version| + 1 + k] == rest[k];
      }
    }
  }

  /** A record of any other version decodes to nothing. */
  lemma OtherVersionsAreRejected(version: string, rest: string)
    requires Ascii(version + ("|" + rest)) && '|' !in version && version != CURSOR_VERSION
    ensures DecodeCursor(EncodeText(version + ("|" + rest))) == None
  {
    hide DecodeCursor, EncodeText, SplitAtPipe, FromIsoFormat, ParseInt;
    DecodeText(version + ("|" + rest));
    SplitAtFirstPipe(version, rest);
  }
}
