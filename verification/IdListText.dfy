/** The supported IDs as text: printed with commas by the service, split in place by the client. Main result:
    the client's loop computes IDsIn of the text, and IDsIn gives back every list the service can print. */
module IdListText {
  import opened CStrings
  import opened Decimal
  import opened IdLists

  /** SendSupportedSMART_IDsToClient: the IDs joined by commas. */
  function Join(ids: seq<nat>): string {
    if ids == [] then ""
    else if |ids| == 1 then Print(ids[0])
    else Print(ids[0]) + "," + Join(ids[1..])
  }

  /** ConvertStringToInt with CheckSMARTidRange: 0 for what is no number or above maxID. */
  function ToID(field: string, maxID: nat): nat {
    var digits := DigitPrefix(field);
    if digits != "" && Value(digits) <= maxID then Value(digits) else 0
  }

  /** The part of a text before its first comma. */
  function Field(s: string): (f: string)
    ensures f <= s && ',' !in f
    ensures |f| < |s| ==> s[|f|] == ','
  {
    if s == "" || s[0] == ',' then "" else [s[0]] + Field(s[1..])
  }

  /** The IDs in a text: one for each comma, and one for what follows the last comma unless that is empty. */
  function IDsIn(s: string, maxID: nat): seq<nat>
    decreases |s|
  {
    var f := Field(s);
    if |f| < |s| then [ToID(f, maxID)] + IDsIn(s[|f| + 1..], maxID)
    else if s != "" then [ToID(s, maxID)]
    else []
  }

  lemma {:induction false} FieldUnique(s: string, n: nat)
    requires n <= |s| && ',' !in s[..n] && (n < |s| ==> s[n] == ',')
    ensures Field(s) == s[..n]
  {
    if n > 0 {
      assert s[0] == s[..n][0] && s[0] in s[..n];
      assert s[1..][..n - 1] == s[..n][1..];
      FieldUnique(s[1..], n - 1);
      assert s[..n] == [s[0]] + s[1..][..n - 1];
    } else {
      assert s[..n] == "";
    }
  }

  lemma PrintedID(id: nat, maxID: nat, rest: string)
    requires id <= maxID && (rest == "" || rest[0] == ',')
    ensures ToID(Print(id), maxID) == id && Field(Print(id) + rest) == Print(id) && Print(id) != ""
  {
    PrintedValue(id);
    PrefixStops(Print(id), "");
    assert Print(id) + "" == Print(id);
    assert (Print(id) + rest)[..|Print(id)|] == Print(id);
    assert ',' !in Print(id);
    FieldUnique(Print(id) + rest, |Print(id)|);
  }

  lemma FirstID(id: nat, maxID: nat, rest: string)
    requires id <= maxID
    ensures IDsIn(Print(id), maxID) == [id]
    ensures IDsIn(Print(id) + "," + rest, maxID) == [id] + IDsIn(rest, maxID)
  {
    hide Print, Value, DigitPrefix, ToID, Field;
    var s := Print(id) + "," + rest;
    PrintedID(id, maxID, "");
    PrintedID(id, maxID, "," + rest);
    assert Print(id) + "" == Print(id);
    assert s == Print(id) + ("," + rest);
    assert s[|Print(id)| + 1..] == rest;
  }

  /** ID list round trip: every list of in-range IDs is parsed back. */
  lemma {:induction false} IDListRoundTrip(ids: seq<nat>, maxID: nat)
    requires forall k :: 0 <= k < |ids| ==> ids[k] <= maxID
    ensures IDsIn(Join(ids), maxID) == ids
  {
    if ids != [] {
      hide Print, IDsIn;
      FirstID(ids[0], maxID, Join(ids[1..]));
      IDListRoundTrip(ids[1..], maxID);
      assert ids == [ids[0]] + ids[1..];
    }
  }

  // ---- Any text ----

  /** Fields with commas between them. */
  function JoinFields(fields: seq<string>): string {
    if fields == [] then ""
    else if |fields| == 1 then fields[0]
    else fields[0] + "," + JoinFields(fields[1..])
  }

  /** The service's text: the printed IDs with commas between them. */
  lemma {:induction false} JoinedWithCommas(ids: seq<nat>)
    ensures Join(ids) == JoinFields(seq(|ids|, i requires 0 <= i < |ids| => Print(ids[i])))
  {
    if |ids| >= 2 {
      JoinedWithCommas(ids[1..]);
      var fields := seq(|ids|, i requires 0 <= i < |ids| => Print(ids[i]));
      assert fields[1..] == seq(|ids[1..]|, i requires 0 <= i < |ids[1..]| => Print(ids[1..][i]));
    }
  }

  /** A field is converted to its number if that is at most maxID, and to 0 if not, or if it does not start with
      a digit. */
  lemma FieldConverted(n: nat, rest: string, maxID: nat)
    requires rest == "" || !IsDigit(rest[0])
    ensures ToID(Print(n) + rest, maxID) == if n <= maxID then n else 0
    ensures ToID(rest, maxID) == 0
  {
    hide Print, Value;
    PrintedValue(n);
    PrefixStops(Print(n), rest);
    PrefixStops("", rest);
    assert "" + rest == rest;
  }

  /** Every field of any text is converted, in order, also those between two commas; only an empty last one is
      not. */
  lemma {:induction false} FieldsConverted(fields: seq<string>, maxID: nat)
    requires fields != [] && forall i :: 0 <= i < |fields| ==> ',' !in fields[i]
    ensures
      var ids, count := IDsIn(JoinFields(fields), maxID), if fields[|fields| - 1] == "" then |fields| - 1 else |fields|;
      |ids| == count && forall i :: 0 <= i < count ==> ids[i] == ToID(fields[i], maxID)
  {
    hide ToID, IDsIn, Field;
    if |fields| == 1 {
      OnlyField(fields[0], maxID);
    } else {
      FirstField(fields[0], JoinFields(fields[1..]), maxID);
      FieldsConverted(fields[1..], maxID);
    }
  }

  lemma OnlyField(f: string, maxID: nat)
    requires ',' !in f
    ensures IDsIn(f, maxID) == if f == "" then [] else [ToID(f, maxID)]
  {
    hide ToID;
    assert f[..|f|] == f;
    FieldUnique(f, |f|);
  }

  lemma FirstField(f: string, rest: string, maxID: nat)
    requires ',' !in f
    ensures IDsIn(f + "," + rest, maxID) == [ToID(f, maxID)] + IDsIn(rest, maxID)
  {
    hide ToID;
    var s := f + "," + rest;
    assert s[..|f|] == f && s[|f|] == ',' && s[|f| + 1..] == rest;
    FieldUnique(s, |f|);
  }

  // ---- The loop ----

  /** One field more has been split off at cur. */
  lemma SplitOff(s: string, last: nat, cur: nat, maxID: nat)
    requires last <= cur < |s| && s[cur] == ',' && ',' !in s[last..cur]
    ensures IDsIn(s[last..], maxID) == [ToID(s[last..cur], maxID)] + IDsIn(s[cur + 1..], maxID)
  {
    assert s[last..][..cur - last] == s[last..cur];
    FieldUnique(s[last..], cur - last);
    assert s[last..][cur - last + 1..] == s[cur + 1..];
  }

  lemma LastField(s: string, last: nat, maxID: nat)
    requires last <= |s| && ',' !in s[last..]
    ensures IDsIn(s[last..], maxID) == if last < |s| then [ToID(s[last..], maxID)] else []
  {
    assert s[last..][..|s| - last] == s[last..];
    FieldUnique(s[last..], |s| - last);
  }

  /** The loop of GetSupportedSMARTattributesViaXML over the text of a C string: overwrites its commas with NUL
      and stores the IDs, with a 0 behind them where there is room. The IDs must fit into the array. */
  method ParseIDList(text: array<char>, supportedIDs: array<nat>, maxID: nat)
    requires |CString(text[..])| < text.Length
    requires |IDsIn(CString(text[..]), maxID)| <= supportedIDs.Length
    modifies text, supportedIDs
    ensures supportedIDs[..] == Placed(old(supportedIDs[..]), IDsIn(CString(old(text[..])), maxID))
  {
    hide ToID, IDsIn, Field, CString, Placed;
    ghost var s, all, before := CString(text[..]), text[..], supportedIDs[..];
    ghost var ids: seq<nat> := [];
    var arrIdx, last, cur := 0, 0, 0;
    while text[cur] != NUL
      invariant 0 <= last <= cur <= |s| && arrIdx == |ids|
      invariant forall k :: cur <= k < text.Length ==> text[k] == all[k]
      invariant forall k :: last <= k < cur ==> text[k] == s[k] && s[k] != ',' && s[k] != NUL
      invariant ids + IDsIn(s[last..], maxID) == IDsIn(s, maxID)
      invariant forall k :: 0 <= k < arrIdx ==> supportedIDs[k] == ids[k]
      invariant forall k :: arrIdx <= k < supportedIDs.Length ==> supportedIDs[k] == before[k]
      decreases |s| - cur
    {
      assert text[cur] == s[cur];
      if text[cur] == ',' {
        text[cur] := NUL;
        SplitOff(s, last, cur, maxID);
        var number := ConvertAt(text, s, last, cur, maxID);
        supportedIDs[arrIdx] := number;
        ids := ids + [number];
        arrIdx := arrIdx + 1;
        last := cur + 1;
      }
      cur := cur + 1;
    }
    LastField(s, last, maxID);
    if last < cur {
      var number := ConvertAt(text, s, last, cur, maxID);
      assert s[last..cur] == s[last..];
      ids := ids + [number];
      supportedIDs[arrIdx] := number;
      arrIdx := arrIdx + 1;
    }
    if arrIdx < supportedIDs.Length {
      supportedIDs[arrIdx] := 0;
    }
    assert ids == IDsIn(s, maxID);
    PlacedBy(before, ids, supportedIDs[..]);
  }

  /** ConvertStringToInt reads from a position up to the next NUL. */
  method ConvertAt(text: array<char>, ghost s: string, last: nat, ghost end: nat, maxID: nat) returns (number: nat)
    requires last <= end < text.Length && end <= |s| && text[end] == NUL
    requires forall k :: last <= k < end ==> text[k] == s[k] && s[k] != NUL
    ensures number == ToID(s[last..end], maxID)
  {
    assert text[last..][..end - last] == s[last..end];
    CStringUnique(text[last..], end - last);
    number := ToID(CString(text[last..]), maxID);
  }
}
