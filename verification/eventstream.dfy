/**
 * The wire format of `event_stream`: each item the session yields goes out
 * as one server-sent event, `data: <item>` followed by a blank line, as
 * defined in section 9.2 "Server-sent events" of the WHATWG HTML Living
 * Standard. The decoder below is the part of that section's stream
 * interpretation a client needs for such a stream: lines end at LF, a blank
 * line dispatches the event, a line starting with `:` is a comment, the
 * field name ends at the first `:` and one space after it is dropped, and a
 * `data` field appends its value and a LF to the data buffer.
 */
module EventStream {
  import opened Text

  /** `'data: {}\n\n'.format(item)`. */
  function Frame(item: string): string {
    "data: " + item + "\n\n"
  }

  /** Everything a session writes for the items it yielded, in order. */
  function Stream(items: seq<string>): string
    decreases |items|
  {
    if |items| == 0 then "" else Frame(items[0]) + Stream(items[1..])
  }

  /** Field name and value of a non-blank, non-comment line. */
  function Field(line: string): (r: (string, string))
    ensures r.0 == line[..Find(line, ':')]
  {
    var i := Find(line, ':');
    if i == |line| then (line, "")
    else
      var v := line[i + 1..];
      (line[..i], if |v| > 0 && v[0] == ' ' then v[1..] else v)
  }

  /** The data of a dispatched event: the buffer without its last LF. */
  function Dispatched(buffer: string): string {
    if |buffer| > 0 && buffer[|buffer| - 1] == '\n' then buffer[..|buffer| - 1] else buffer
  }

  /** The events fired while interpreting complete `lines` with data buffer `buffer`. */
  function Interpret(lines: seq<string>, buffer: string): seq<string>
    decreases |lines|
  {
    if |lines| == 0 then []
    else
      var line := lines[0];
      if line == "" then
        if buffer == "" then Interpret(lines[1..], "")
        else [Dispatched(buffer)] + Interpret(lines[1..], "")
      else if line[0] == ':' then Interpret(lines[1..], buffer)
      else
        var f := Field(line);
        if f.0 == "data" then Interpret(lines[1..], buffer + f.1 + "\n")
        else Interpret(lines[1..], buffer)
  }

  /** The `data` of every event a client sees; text after the last LF is an unfinished line and is not interpreted. */
  function Decode(stream: string): seq<string> {
    var lines := Split(stream, '\n');
    Interpret(lines[..|lines| - 1], "")
  }

  /** The lines the frames of `items` consist of. */
  function FrameLines(items: seq<string>): (lines: seq<string>)
    ensures |lines| == 2 * |items|
    decreases |items|
  {
    if |items| == 0 then [] else ["data: " + items[0], ""] + FrameLines(items[1..])
  }

  /**
   * Items that the format can carry: none has a line break in it. The
   * standard ends a line at CR as well as at LF, so both are excluded.
   */
  predicate SingleLine(items: seq<string>) {
    forall k :: 0 <= k < |items| ==> '\n' !in items[k] && '\r' !in items[k]
  }

  lemma {:induction false} FrameLinesSingleLine(items: seq<string>)
    requires SingleLine(items)
    ensures forall i :: 0 <= i < |FrameLines(items)| ==> '\n' !in FrameLines(items)[i]
    decreases |items|
  {
    if |items| > 0 {
      FrameLinesSingleLine(items[1..]);
      var rest := FrameLines(items[1..]);
      assert FrameLines(items) == ["data: " + items[0], ""] + rest;
      forall i | 0 <= i < |FrameLines(items)| ensures '\n' !in FrameLines(items)[i] {
        if i >= 2 {
          assert FrameLines(items)[i] == rest[i - 2];
        } else if i == 0 {
          assert '\n' !in "data: " && '\n' !in items[0];
        }
      }
    }
  }

  /** The stream is the frame lines joined by LF, followed by an empty unfinished line. */
  lemma {:induction false} StreamIsJoin(items: seq<string>)
    ensures Stream(items) == Join(FrameLines(items) + [""], '\n')
    decreases |items|
  {
    if |items| > 0 {
      StreamIsJoin(items[1..]);
      var rest := FrameLines(items[1..]) + [""];
      var all := FrameLines(items) + [""];
      assert all == ["data: " + items[0]] + ([""] + rest);
      assert all[1..] == [""] + rest;
      assert ([""] + rest)[1..] == rest;
      assert Join([""] + rest, '\n') == "" + "\n" + Join(rest, '\n');
      assert Join(all, '\n') == ("data: " + items[0]) + "\n" + ("" + "\n" + Join(rest, '\n'));
      assert Frame(items[0]) == ("data: " + items[0]) + "\n" + ("" + "\n");
    }
  }

  /** Each pair of frame lines fires one event carrying the item. */
  lemma {:induction false} InterpretFrameLines(items: seq<string>)
    ensures Interpret(FrameLines(items), "") == items
    decreases |items|
  {
    if |items| > 0 {
      var line := "data: " + items[0];
      var lines := FrameLines(items);
      assert lines[0] == line && lines[1..] == [""] + FrameLines(items[1..]);
      assert Find(line, ':') == 4 by {
        assert line[..4] == "data" && line[4] == ':';
        var i := Find(line, ':');
        assert i <= 4;
      }
      assert Field(line) == ("data", items[0]) by {
        var v := line[5..];
        assert v == " " + items[0];
        assert |v| > 0 && v[0] == ' ';
        assert v[1..] == items[0];
        assert line[..4] == "data";
      }
      var buffer := "" + items[0] + "\n";
      assert Interpret(lines, "") == Interpret(lines[1..], buffer);
      assert Dispatched(buffer) == items[0];
      assert ([""] + FrameLines(items[1..]))[1..] == FrameLines(items[1..]);
      InterpretFrameLines(items[1..]);
      assert items == [items[0]] + items[1..];
    }
  }

  /**
   * A client reading what a session wrote sees exactly the yielded items,
   * one event each, in order; a heartbeat `''` arrives as an event with
   * empty data.
   */
  lemma DecodeStream(items: seq<string>)
    requires SingleLine(items)
    ensures Decode(Stream(items)) == items
  {
    var lines := FrameLines(items) + [""];
    StreamIsJoin(items);
    FrameLinesSingleLine(items);
    SplitJoin(lines, '\n');
    assert lines[..|lines| - 1] == FrameLines(items);
    InterpretFrameLines(items);
  }

  /** The page's `onmessage` handler returns at once for empty data, so heartbeats display nothing. */
  function Shown(events: seq<string>): (r: seq<string>)
    ensures forall k :: 0 <= k < |r| ==> r[k] != "" && r[k] in events
    ensures forall e :: e in events && e != "" ==> e in r
    ensures multiset(r) == multiset(events)["" := 0]
    decreases |events|
  {
    if |events| == 0 then []
    else
      assert events == [events[0]] + events[1..];
      if events[0] == "" then Shown(events[1..])
      else [events[0]] + Shown(events[1..])
  }

  /**
   * The page handles events one at a time, in arrival order: what it shows
   * for two parts of a stream is what it shows for the first, then the second.
   */
  lemma {:induction false} ShownAppend(a: seq<string>, b: seq<string>)
    ensures Shown(a + b) == Shown(a) + Shown(b)
    decreases |a|
  {
    if |a| == 0 {
      assert a + b == b;
    } else {
      assert (a + b)[0] == a[0] && (a + b)[1..] == a[1..] + b;
      ShownAppend(a[1..], b);
    }
  }

  /** One event is shown exactly when its data is not empty. */
  lemma ShownOne(e: string)
    ensures Shown([e]) == if e == "" then [] else [e]
  {
    assert [e][1..] == [];
  }

  /** A heartbeat goes out as exactly `data: ` and a blank line. */
  lemma HeartbeatFrame()
    ensures Frame("") == "data: \n\n"
  {
  }

  /** A stream of nothing but heartbeats makes the page show nothing. */
  lemma HeartbeatsShowNothing(items: seq<string>)
    requires forall k :: 0 <= k < |items| ==> items[k] == ""
    ensures Shown(Decode(Stream(items))) == []
  {
    assert SingleLine(items);
    DecodeStream(items);
    NoneShown(items);
  }

  lemma {:induction false} NoneShown(events: seq<string>)
    requires forall k :: 0 <= k < |events| ==> events[k] == ""
    ensures Shown(events) == []
    decreases |events|
  {
    if |events| > 0 {
      NoneShown(events[1..]);
    }
  }
}
