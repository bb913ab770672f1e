/** Stored conversations: the printer pushing into one shared buffer, the size budget of a saved
    conversation, and the size budget of the list. */
module Conversations {
  import opened Wrappers
  import opened PyJson
  import opened PyJsonRoundTrip

  // ---------------------------------------------------------------- the printer

  /** The string every part of the printer appends to. */
  class Buffer {
    var text: string

    constructor ()
      ensures text == ""
    {
      text := "";
    }

    method Push(s: string)
      modifies this
      ensures text == old(text) + s
    {
      text := text + s;
    }
  }

  lemma {:induction false} CharsSnoc(s: string, i: nat)
    requires i < |s|
    ensures CharsText(s[..i + 1]) == CharsText(s[..i]) + CharText(s[i])
  {
    hide CharText;
    if i > 0 {
      CharsSnoc(s[1..], i - 1);
      assert s[..i + 1][1..] == s[1..][..i] && s[..i][1..] == s[1..][..i - 1];
    }
  }

  lemma {:induction false} ItemsSnoc(items: seq<Json>, i: nat)
    requires i < |items|
    ensures ItemsText(items[..i + 1]) == ItemsText(items[..i]) + (if i > 0 then ", " else "") + Text(items[i])
  {
    hide Text;
    if i > 0 {
      ItemsSnoc(items[1..], i - 1);
      assert items[..i + 1][1..] == items[1..][..i] && items[..i][1..] == items[1..][..i - 1];
    }
  }

  lemma {:induction false} MembersSnoc(members: seq<(string, Json)>, i: nat)
    requires i < |members|
    ensures MembersText(members[..i + 1]) == MembersText(members[..i]) + (if i > 0 then ", " else "") + MemberText(members[i])
  {
    hide MemberText;
    if i > 0 {
      MembersSnoc(members[1..], i - 1);
      assert members[..i + 1][1..] == members[1..][..i] && members[..i][1..] == members[1..][..i - 1];
    }
  }

  lemma CharsNone()
    ensures CharsText("") == "" && ItemsText([]) == "" && MembersText([]) == ""
  {}

  method WriteStr(s: string, out: Buffer)
    modifies out
    ensures out.text == old(out.text) + StrText(s)
  {
    hide CharText, CharsText;
    out.Push("\"");
    ghost var start := out.text;
    CharsNone();
    for i := 0 to |s|
      invariant out.text == start + CharsText(s[..i])
    {
      CharsSnoc(s, i);
      out.Push(CharText(s[i]));
    }
    assert s[..|s|] == s;
    out.Push("\"");
  }

  method WriteValue(v: Json, out: Buffer)
    modifies out
    ensures out.text == old(out.text) + Text(v)
    decreases v, 1
  {
    match v
    case Null => out.Push("null");
    case Bool(b) => out.Push(if b then "true" else "false");
    case Int(n) => out.Push(IntText(n));
    case Str(s) => WriteStr(s, out);
    case Arr(items) => WriteItems(items, out);
    case Obj(members) => WriteMembers(members, out);
  }

  method WriteItems(items: seq<Json>, out: Buffer)
    modifies out
    ensures out.text == old(out.text) + "[" + ItemsText(items) + "]"
    decreases items, 0
  {
    hide Text, ItemsText;
    out.Push("[");
    ghost var start := out.text;
    CharsNone();
    for i := 0 to |items|
      invariant out.text == start + ItemsText(items[..i])
    {
      ItemsSnoc(items, i);
      if i > 0 {
        out.Push(", ");
      }
      WriteValue(items[i], out);
    }
    assert items[..|items|] == items;
    out.Push("]");
  }

  method WriteMembers(members: seq<(string, Json)>, out: Buffer)
    modifies out
    ensures out.text == old(out.text) + "{" + MembersText(members) + "}"
    decreases members, 0
  {
    hide MemberText, MembersText;
    out.Push("{");
    ghost var start := out.text;
    CharsNone();
    for i := 0 to |members|
      invariant out.text == start + MembersText(members[..i])
    {
      MembersSnoc(members, i);
      if i > 0 {
        out.Push(", ");
      }
      WriteMember(members[i], out);
    }
    assert members[..|members|] == members;
    out.Push("}");
  }

  method WriteMember(m: (string, Json), out: Buffer)
    modifies out
    ensures out.text == old(out.text) + MemberText(m)
    decreases m, 2
  {
    hide StrText, Text;
    WriteStr(m.0, out);
    out.Push(": ");
    WriteValue(m.1, out);
  }

  method PyDumps(v: Json) returns (s: string)
    ensures s == Text(v)
  {
    var out := new Buffer();
    WriteValue(v, out);
    s := out.text;
  }

  // ---------------------------------------------------------------- the budget of one conversation

  const CONV_MAX_CHARS := 2_000_000

  /** The serialized length of a list of messages. */
  ghost function Size(messages: seq<Json>): nat { |Text(Arr(messages))| }

  /** Removing the first of several messages saves its text and one separator, exactly. */
  lemma SizeWithoutFirst(messages: seq<Json>)
    requires |messages| > 1
    ensures Size(messages) == Size(messages[1..]) + |Text(messages[0])| + 2
  {
    ArrayLength(messages);
    ArrayLength(messages[1..]);
    assert ItemsText(messages) == Text(messages[0]) + ", " + ItemsText(messages[1..]);
  }

  lemma ArrayLength(messages: seq<Json>)
    ensures Size(messages) == |ItemsText(messages)| + 2
    ensures Size([]) <= CONV_MAX_CHARS
  {
    hide ItemsText;
    EmptyArrayText();
  }

  lemma EmptyArrayText()
    ensures Text(Arr([])) == "[]"
  {}

  /** Dropping from the front while the rest does not fit, but never the last message. */
  ghost function Trimmed(messages: seq<Json>): seq<Json> {
    if |messages| <= 1 || Size(messages) <= CONV_MAX_CHARS then messages else Trimmed(messages[1..])
  }

  /** What is kept is the longest suffix that fits, or the last message alone. */
  lemma {:induction false} TrimmedIsLongest(messages: seq<Json>) returns (k: nat)
    ensures k <= |messages| && Trimmed(messages) == messages[k..]
    ensures messages != [] ==> k < |messages|
    ensures Size(messages[k..]) <= CONV_MAX_CHARS || |messages| - k == 1
    ensures forall j :: 0 <= j < k ==> Size(messages[j..]) > CONV_MAX_CHARS
  {
    hide Size;
    ArrayLength(messages);
    if |messages| <= 1 || Size(messages) <= CONV_MAX_CHARS {
      k := 0;
      assert messages[0..] == messages;
    } else {
      var k' := TrimmedIsLongest(messages[1..]);
      k := k' + 1;
      assert messages[1..][k'..] == messages[k..];
      forall j | 0 <= j < k ensures Size(messages[j..]) > CONV_MAX_CHARS {
        if j > 0 {
          assert messages[j..] == messages[1..][j - 1..];
        } else {
          assert messages[0..] == messages;
        }
      }
    }
  }

  function SaturatingSub(x: nat, y: nat): nat { if x >= y then x - y else 0 }

  /** The first loop: its running total is at every step the exact size of what remains. */
  method DropOldest(messages: seq<Json>) returns (kept: seq<Json>, total: nat)
    ensures kept == Trimmed(messages)
    ensures total == Size(kept)
    ensures total <= CONV_MAX_CHARS || |kept| <= 1
  {
    hide Text;
    kept := messages;
    var whole := PyDumps(Arr(kept));
    total := |whole|;
    while total > CONV_MAX_CHARS && |kept| > 1
      invariant total == Size(kept) && Trimmed(kept) == Trimmed(messages)
      decreases |kept|
    {
      SizeWithoutFirst(kept);
      var removed := PyDumps(kept[0]);
      kept := kept[1..];
      assert total >= |removed| + 2;
      total := SaturatingSub(total, |removed| + 2);
    }
  }

  /** Both loops. The second recounts exactly, and is entered with nothing left to remove. */
  method TrimToBudget(messages: seq<Json>) returns (kept: seq<Json>)
    ensures kept == Trimmed(messages)
  {
    hide Text;
    var total;
    kept, total := DropOldest(messages);
    var text := PyDumps(Arr(kept));
    assert !(|text| > CONV_MAX_CHARS && |kept| > 1);
    while |text| > CONV_MAX_CHARS && |kept| > 1
      invariant Trimmed(kept) == Trimmed(messages) && |text| == Size(kept)
      decreases |kept|
    {
      kept := kept[1..];
      text := PyDumps(Arr(kept));
    }
  }

  // ---------------------------------------------------------------- reading a stored text

  /** The stored list, or nothing when the text is unreadable or not a list. */
  function MessagesOf(text: string): Option<seq<Json>> {
    match Read(text)
    case Some(Arr(messages)) => Some(messages)
    case _ => None
  }

  /** What a save stores is what the next load reads. */
  lemma SavedIsLoaded(messages: seq<Json>)
    requires Valid(Arr(messages))
    ensures MessagesOf(Text(Arr(Trimmed(messages)))) == Some(Trimmed(messages))
  {
    hide Read, Text;
    var k := TrimmedIsLongest(messages);
    var v := Arr(messages[k..]);
    assert Valid(v);
    RoundTrip(v);
  }

  // ---------------------------------------------------------------- the budget of the list

  const LIST_MAX_CHARS := 8_000_000

  datatype StoredRow = StoredRow(id: string, text: string)

  /** One conversation of the list: its messages, or only its metadata. */
  datatype Item = Item(id: string, messages: seq<Json>, omitted: bool)

  /** The readable rows. */
  ghost function Readable(rows: seq<StoredRow>): seq<StoredRow> {
    if rows == [] then []
    else
      var init, last := Readable(rows[..|rows| - 1]), rows[|rows| - 1];
      if MessagesOf(last.text).Some? then init + [last] else init
  }

  /** The characters of the rows served in full. */
  ghost function Served(rows: seq<StoredRow>, items: seq<Item>): nat
    requires |rows| == |items|
  {
    if rows == [] then 0
    else
      var n := |rows| - 1;
      Served(rows[..n], items[..n]) + if items[n].omitted then 0 else |rows[n].text|
  }

  /** Item `i` carries its row's messages exactly when it is the first or the budget still holds it. */
  ghost predicate FairlyServed(rows: seq<StoredRow>, items: seq<Item>, i: nat)
    requires |rows| == |items| && i < |rows|
  {
    && items[i].id == rows[i].id
    && (items[i].omitted <==> i > 0 && Served(rows[..i], items[..i]) + |rows[i].text| > LIST_MAX_CHARS)
    && (items[i].omitted ==> items[i].messages == [])
    && (!items[i].omitted ==> MessagesOf(rows[i].text) == Some(items[i].messages))
  }

  /** However many conversations, what is served in full stays within the budget or is one conversation. */
  lemma {:induction false} ServedWithinBudget(rows: seq<StoredRow>, items: seq<Item>)
    requires |rows| == |items| && rows != []
    requires forall i :: 0 <= i < |rows| ==> FairlyServed(rows, items, i)
    ensures Served(rows, items) <= LIST_MAX_CHARS || Served(rows, items) == |rows[0].text|
  {
    hide MessagesOf;
    var n := |rows| - 1;
    assert FairlyServed(rows, items, n);
    if n > 0 {
      forall i | 0 <= i < n ensures FairlyServed(rows[..n], items[..n], i) {
        assert FairlyServed(rows, items, i);
        assert rows[..n][..i] == rows[..i] && items[..n][..i] == items[..i];
      }
      ServedWithinBudget(rows[..n], items[..n]);
    }
  }

  /** The items for the first rows, with the characters served so far. */
  ghost predicate Listed(rows: seq<StoredRow>, items: seq<Item>, size: nat) {
    && |rows| == |items|
    && size == Served(rows, items)
    && forall i :: 0 <= i < |rows| ==> FairlyServed(rows, items, i)
  }

  /** The next readable row's item, and the new count. */
  method Serve(row: StoredRow, messages: seq<Json>, out: seq<Item>, size: nat, ghost before: seq<StoredRow>)
    returns (item: Item, size': nat)
    requires MessagesOf(row.text) == Some(messages) && Listed(before, out, size)
    ensures Listed(before + [row], out + [item], size')
  {
    hide MessagesOf;
    var chars := |row.text|;
    size' := size;
    if out == [] || size + chars <= LIST_MAX_CHARS {
      item := Item(row.id, messages, false);
      size' := size + chars;
    } else {
      item := Item(row.id, [], true);
    }
    ServedSnoc(before, out, row, item);
    assert FairlyServed(before + [row], out + [item], |before|);
  }

  lemma ReadableSnoc(rows: seq<StoredRow>, r: nat)
    requires r < |rows|
    ensures Readable(rows[..r + 1]) ==
      if MessagesOf(rows[r].text).Some? then Readable(rows[..r]) + [rows[r]] else Readable(rows[..r])
  {
    hide MessagesOf;
    assert rows[..r + 1][..r] == rows[..r];
  }

  method List(rows: seq<StoredRow>) returns (out: seq<Item>)
    ensures |out| == |Readable(rows)|
    ensures forall i :: 0 <= i < |out| ==> FairlyServed(Readable(rows), out, i)
  {
    hide MessagesOf, Readable, FairlyServed, Served;
    out := [];
    var size: nat := 0;
    NothingListed(rows);
    for r := 0 to |rows|
      invariant Listed(Readable(rows[..r]), out, size)
    {
      ReadableSnoc(rows, r);
      match MessagesOf(rows[r].text) {
        case None =>
        case Some(messages) =>
          var item;
          item, size := Serve(rows[r], messages, out, size, Readable(rows[..r]));
          out := out + [item];
      }
    }
    assert rows[..|rows|] == rows;
  }

  lemma NothingListed(rows: seq<StoredRow>)
    ensures Listed(Readable(rows[..0]), [], 0)
  {}

  lemma ServedSnoc(rows: seq<StoredRow>, items: seq<Item>, row: StoredRow, item: Item)
    requires |rows| == |items|
    requires forall i :: 0 <= i < |rows| ==> FairlyServed(rows, items, i)
    ensures Served(rows + [row], items + [item]) == Served(rows, items) + if item.omitted then 0 else |row.text|
    ensures forall i :: 0 <= i < |rows| ==> FairlyServed(rows + [row], items + [item], i)
    ensures (rows + [row])[..|rows|] == rows && (items + [item])[..|rows|] == items
  {
    hide MessagesOf;
    var rows', items' := rows + [row], items + [item];
    assert rows'[..|rows|] == rows && items'[..|rows|] == items;
    forall i | 0 <= i < |rows| ensures FairlyServed(rows', items', i) {
      assert FairlyServed(rows, items, i);
      assert rows'[..i] == rows[..i] && items'[..i] == items[..i];
    }
  }
}
