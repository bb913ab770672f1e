/** The framing loop of the event streams: text is gathered in a buffer, cut at blank lines, and what
    follows the last blank line waits for the next chunk. */
module EventStream {
  import opened Wrappers
  import opened JsStrings

  /** `split("\n\n")`, the last piece apart. */
  function Cut(s: string): (seq<string>, string) {
    if |s| < 2 then ([], s)
    else if s[0] == '\n' && s[1] == '\n' then
      var (parts, rest) := Cut(s[2..]);
      ([""] + parts, rest)
    else
      var (parts, rest) := Cut(s[1..]);
      if parts == [] then ([], s) else ([[s[0]] + parts[0]] + parts[1..], rest)
  }

  /** The first line of a packet that carries data. */
  function DataLine(lines: seq<string>): (r: Option<string>)
    ensures r.Some? ==> "data:" <= r.value
  {
    if lines == [] then None
    else if "data:" <= lines[0] then Some(lines[0])
    else DataLine(lines[1..])
  }

  /** What a packet delivers: nothing without a data line, for the end mark, or when it is not JSON. */
  function Delivered<P>(part: string, parse: string -> Option<P>): Option<P> {
    match DataLine(Split(part, '\n'))
    case None => None
    case Some(line) =>
      var payload := Trim(line[5..]);
      if payload == "[DONE]" then None else parse(payload)
  }

  /** What packets deliver to this reader, in order. */
  ghost function Gather<P>(parts: seq<string>, read: string -> Option<P>): seq<P> {
    if parts == [] then []
    else
      var before := Gather(parts[..|parts| - 1], read);
      match read(parts[|parts| - 1]) case Some(e) => before + [e] case None => before
  }

  function Reader<P>(parse: string -> Option<P>): string -> Option<P> { part => Delivered(part, parse) }

  ghost function Events<P>(parts: seq<string>, parse: string -> Option<P>): seq<P> { Gather(parts, Reader(parse)) }

  ghost function Stream(chunks: seq<string>): string {
    if chunks == [] then "" else Stream(chunks[..|chunks| - 1]) + chunks[|chunks| - 1]
  }

  lemma {:induction false} CutWhole(s: string)
    ensures Cut(s).0 == [] ==> Cut(s).1 == s
  {}

  /** Cutting a longer text cuts its beginning the same way, and goes on from what was left over. */
  lemma {:induction false} CutAppend(x: string, y: string)
    ensures var (parts, rest) := Cut(x);
      Cut(x + y) == (parts + Cut(rest + y).0, Cut(rest + y).1)
    decreases |x|
  {
    hide Cut;
    var (parts, rest) := Cut(x);
    if parts == [] {
      CutWhole(x);
      NoneFirst(Cut(x + y).0);
    } else {
      CutShort(x);
      CutStep(x);
      CutStep(x + y);
      if x[0] == '\n' && x[1] == '\n' {
        assert (x + y)[2..] == x[2..] + y;
        CutAppend(x[2..], y);
        OneFirst("", Cut(x[2..]).0, Cut(rest + y).0);
      } else {
        assert (x + y)[1..] == x[1..] + y;
        CutAppend(x[1..], y);
        OneGrows([x[0]] + Cut(x[1..]).0[0], Cut(x[1..]).0, Cut(rest + y).0);
      }
    }
  }

  lemma CutShort(s: string)
    ensures |s| < 2 ==> Cut(s) == ([], s)
  {}

  lemma CutStep(s: string)
    requires |s| >= 2
    ensures s[0] == '\n' && s[1] == '\n' ==> Cut(s) == ([""] + Cut(s[2..]).0, Cut(s[2..]).1)
    ensures !(s[0] == '\n' && s[1] == '\n') ==>
      Cut(s) == if Cut(s[1..]).0 == [] then ([], s)
                else ([[s[0]] + Cut(s[1..]).0[0]] + Cut(s[1..]).0[1..], Cut(s[1..]).1)
  {}

  lemma NoneFirst<T>(more: seq<T>)
    ensures [] + more == more
  {}

  lemma OneFirst<T>(first: T, tail: seq<T>, more: seq<T>)
    ensures [first] + (tail + more) == [first] + tail + more
  {}

  lemma OneGrows<T>(first: T, tail: seq<T>, more: seq<T>)
    requires tail != []
    ensures tail + more != [] && (tail + more)[0] == tail[0]
    ensures [first] + (tail + more)[1..] == [first] + tail[1..] + more
  {}

  lemma {:induction false} GatherAppend<P>(p: seq<string>, q: seq<string>, read: string -> Option<P>)
    ensures Gather(p + q, read) == Gather(p, read) + Gather(q, read)
  {
    if q == [] {
      assert p + q == p;
    } else {
      var init, last := q[..|q| - 1], q[|q| - 1];
      GatherAppend(p, init, read);
      assert (p + q)[..|p + q| - 1] == p + init && (p + q)[|p + q| - 1] == last;
    }
  }

  /** The loop: what is delivered and what is left depend on the whole stream only. */
  method ReadStream<P>(chunks: seq<string>, parse: string -> Option<P>) returns (delivered: seq<P>, buffer: string)
    ensures delivered == Events(Cut(Stream(chunks)).0, parse)
    ensures buffer == Cut(Stream(chunks)).1
  {
    hide Delivered, Cut;
    delivered, buffer := [], "";
    CutNothing();
    for i := 0 to |chunks|
      invariant delivered == Events(Cut(Stream(chunks[..i])).0, parse)
      invariant buffer == Cut(Stream(chunks[..i])).1
    {
      ghost var before, was := Stream(chunks[..i]), delivered;
      CutAppend(before, chunks[i]);
      assert chunks[..i + 1][..i] == chunks[..i];
      buffer := buffer + chunks[i];
      var (parts, rest) := Cut(buffer);
      GatherAppend(Cut(before).0, parts, Reader(parse));
      for k := 0 to |parts|
        invariant delivered == was + Events(parts[..k], parse)
      {
        assert parts[..k + 1][..k] == parts[..k];
        match Delivered(parts[k], parse) {
          case Some(e) => delivered := delivered + [e];
          case None =>
        }
      }
      assert parts[..|parts|] == parts;
      buffer := rest;
    }
    assert chunks[..|chunks|] == chunks;
  }

  lemma CutNothing()
    ensures Cut("") == ([], "")
  {}

  // ---------------------------------------------------------------- what the other side sends

  /** A packet: lines of other fields, the first line of data if there is one, and whatever lines follow. */
  datatype Packet = Packet(before: seq<string>, data: Option<string>, after: seq<string>)

  ghost function LinesOf(p: Packet): seq<string> {
    p.before + (if p.data.Some? then ["data:" + p.data.value] else []) + p.after
  }

  /** Its lines are whole and not empty, and none before its data, or none at all without data, is of data. */
  ghost predicate WellFormed(p: Packet) {
    && LinesOf(p) != [] && (forall l :: l in LinesOf(p) ==> l != "" && '\n' !in l)
    && (forall l :: l in p.before ==> !("data:" <= l))
    && (p.data.None? ==> forall l :: l in p.after ==> !("data:" <= l))
  }

  /** The packets, each closed by a blank line. */
  ghost function Frames(packets: seq<Packet>): string {
    if packets == [] then "" else Join(LinesOf(packets[0]), '\n') + "\n\n" + Frames(packets[1..])
  }

  /** What they carry: the data of each that has some, blanks aside, is the end mark, or is read; what cannot be
      read is nothing. */
  ghost function Parsed<P>(packets: seq<Packet>, parse: string -> Option<P>): seq<P> {
    if packets == [] then []
    else
      var rest := Parsed(packets[1..], parse);
      var p := packets[0];
      if p.data.None? || Trim(p.data.value) == "[DONE]" || parse(Trim(p.data.value)).None? then rest
      else [parse(Trim(p.data.value)).value] + rest
  }

  /** No blank line inside, and no line break at the end. */
  ghost predicate Whole(body: string) {
    && (forall i :: 0 <= i < |body| - 1 ==> !(body[i] == '\n' && body[i + 1] == '\n'))
    && (body != "" ==> body[|body| - 1] != '\n')
  }

  lemma {:induction false} CutBody(body: string, rest: string)
    requires Whole(body)
    ensures Cut(body + "\n\n" + rest) == ([body] + Cut(rest).0, Cut(rest).1)
  {
    var s := body + "\n\n" + rest;
    if body == "" {
      assert s[2..] == rest;
    } else {
      var t := body[1..];
      assert forall i :: 0 <= i < |t| ==> t[i] == body[i + 1];
      assert s[1..] == t + "\n\n" + rest;
      assert |body| > 1 ==> !(body[0] == '\n' && body[0 + 1] == '\n');
      CutBody(t, rest);
      assert [body[0]] + t == body;
      assert ([t] + Cut(rest).0)[1..] == Cut(rest).0;
    }
  }

  lemma {:induction false} LinesAreWhole(lines: seq<string>)
    requires lines != [] && forall l :: l in lines ==> l != "" && '\n' !in l
    ensures Whole(Join(lines, '\n')) && Join(lines, '\n') != "" && Join(lines, '\n')[0] != '\n'
  {
    var l := lines[0];
    assert l in lines && l[0] in l && l[|l| - 1] in l;
    if |lines| == 1 {
      assert forall i :: 0 <= i < |l| ==> l[i] in l;
    } else {
      assert forall m :: m in lines[1..] ==> m in lines;
      LinesAreWhole(lines[1..]);
      var rest := Join(lines[1..], '\n');
      var body := l + ['\n'] + rest;
      forall i | 0 <= i < |body| - 1 ensures !(body[i] == '\n' && body[i + 1] == '\n') {
        if i < |l| {
          assert body[i] in l;
        } else if i == |l| {
          assert body[i + 1] == rest[0];
        } else {
          assert body[i] == rest[i - |l| - 1] && body[i + 1] == rest[i - |l| - 1 + 1];
        }
      }
      assert body[|body| - 1] == rest[|rest| - 1];
    }
  }

  lemma {:induction false} FirstData(before: seq<string>, rest: seq<string>)
    requires forall l :: l in before ==> !("data:" <= l)
    ensures DataLine(before + rest) == DataLine(rest)
  {
    if before == [] {
      assert before + rest == rest;
    } else {
      assert before[0] in before && (before + rest)[1..] == before[1..] + rest;
      assert forall m :: m in before[1..] ==> m in before;
      FirstData(before[1..], rest);
    }
  }

  lemma PacketDelivers<P>(p: Packet, parse: string -> Option<P>)
    requires WellFormed(p)
    ensures Delivered(Join(LinesOf(p), '\n'), parse) ==
      if p.data.None? || Trim(p.data.value) == "[DONE]" then None else parse(Trim(p.data.value))
  {
    hide Split, Join, Trim;
    var lines := LinesOf(p);
    SplitJoin(lines, '\n');
    match p.data
    case None =>
      assert lines == (p.before + p.after) + [];
      FirstData(p.before + p.after, []);
    case Some(data) =>
      var line := "data:" + data;
      assert lines == p.before + ([line] + p.after);
      FirstData(p.before, [line] + p.after);
      assert "data:" <= line && line[5..] == data;
  }

  /** Every packet closed by a blank line is delivered, in order, whatever other lines it holds; what comes after
      the last blank line stays in the buffer and, if the stream ends there, is lost. */
  lemma {:induction false} FramesAreDelivered<P>(packets: seq<Packet>, tail: string, parse: string -> Option<P>)
    requires forall p :: p in packets ==> WellFormed(p)
    requires Cut(tail).0 == []
    ensures Events(Cut(Frames(packets) + tail).0, parse) == Parsed(packets, parse)
    ensures Cut(Frames(packets) + tail).1 == tail
  {
    hide Delivered, Cut, Trim, Join, WellFormed, LinesOf;
    if packets == [] {
      assert Frames(packets) + tail == tail;
      CutWhole(tail);
    } else {
      var p, rest := packets[0], Frames(packets[1..]) + tail;
      var body := Join(LinesOf(p), '\n');
      assert Frames(packets) + tail == body + "\n\n" + rest;
      assert p in packets;
      LinesFit(p);
      LinesAreWhole(LinesOf(p));
      CutBody(body, rest);
      PacketDelivers(p, parse);
      FramesAreDelivered(packets[1..], tail, parse);
      GatherAppend([body], Cut(rest).0, Reader(parse));
      assert [body][..0] == [];
      assert Events([body], parse) == match Delivered(body, parse) case Some(e) => [] + [e] case None => [];
    }
  }

  lemma LinesFit(p: Packet)
    requires WellFormed(p)
    ensures LinesOf(p) != [] && forall l :: l in LinesOf(p) ==> l != "" && '\n' !in l
  {}
}
