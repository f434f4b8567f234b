/** The WebSocket connection's frame demultiplexer (cricket/mush/ws_connection.py). */
module WsConnections {
  import opened Wrappers
  import opened Lines

  const CH_TEXT := 't'
  const CH_JSON := 'j'

  /** What a frame adds to the text stream. */
  function TextBody(frame: string): string {
    if frame != [] && frame[0] == CH_TEXT then frame[1..] else []
  }

  /** The object a frame carries; `parse` gives None for text that is not a JSON object. */
  function Object<J>(frame: string, parse: string -> Option<J>): seq<J> {
    if frame != [] && frame[0] == CH_JSON && parse(frame[1..]).Some? then [parse(frame[1..]).value] else []
  }

  function TextOf(frames: seq<string>): string {
    if frames == [] then [] else TextOf(frames[..|frames| - 1]) + TextBody(frames[|frames| - 1])
  }

  function ObjectsOf<J>(frames: seq<string>, parse: string -> Option<J>): seq<J> {
    if frames == [] then []
    else ObjectsOf(frames[..|frames| - 1], parse) + Object(frames[|frames| - 1], parse)
  }

  lemma FramesSnoc<J>(frames: seq<string>, f: string, parse: string -> Option<J>)
    ensures TextOf(frames + [f]) == TextOf(frames) + TextBody(f)
    ensures ObjectsOf(frames + [f], parse) == ObjectsOf(frames, parse) + Object(f, parse)
  {
    assert (frames + [f])[..|frames|] == frames;
  }

  class WsConnection<J> {
    const parse: string -> Option<J>
    var textbuf: string
    ghost var lines: seq<string>    // passed to on_line
    ghost var events: seq<J>        // passed to on_event
    ghost var frames: seq<string>   // received since the connection opened

    /** The lines delivered are the complete lines of the joined text bodies, however they were
        split over frames and whatever other frames came between; objects come in order. */
    ghost predicate Valid()
      reads this
    {
      && Reading(lines, textbuf) == Read(NOTHING, TextOf(frames))
      && events == ObjectsOf(frames, parse)
    }

    constructor (parse: string -> Option<J>)
      ensures Valid() && frames == [] && this.parse == parse
    {
      this.parse := parse;
      textbuf, lines, events, frames := [], [], [], [];
    }

    /** `_on_frame`. */
    method OnFrame(payload: string)
      requires Valid()
      modifies this
      ensures Valid() && frames == old(frames) + [payload]
    {
      FramesSnoc(frames, payload, parse);
      assert TextOf(frames) + [] == TextOf(frames);
      assert ObjectsOf(frames, parse) + [] == ObjectsOf(frames, parse);
      if payload != [] {
        var ch, body := payload[0], payload[1..];
        if ch == CH_JSON {
          var obj := parse(body);
          if obj.Some? {
            events := events + [obj.value];
          }
        } else if ch == CH_TEXT {
          TakeText(body, TextOf(frames));
        }
      }
      frames := frames + [payload];
    }

    method TakeText(body: string, ghost text: string)
      requires Reading(lines, textbuf) == Read(NOTHING, text)
      modifies `textbuf, `lines
      ensures Reading(lines, textbuf) == Read(NOTHING, text + body)
    {
      Reread(text, body);
      textbuf := textbuf + body;
      SplitLines(textbuf);
      var parts := Split(ReplaceCrLf(textbuf));
      var complete := parts[..|parts| - 1];
      for i := 0 to |complete|
        invariant lines == old(lines) + complete[..i]
      {
        lines := lines + [complete[i]];
      }
      assert complete[..|complete|] == complete;
      textbuf := parts[|parts| - 1];
    }
  }

  /** Interleaving: a frame of another channel changes no line, a text frame no object. */
  lemma {:induction false} OtherChannels<J>(frames: seq<string>, f: string, rest: seq<string>, parse: string -> Option<J>)
    ensures f == [] || f[0] != 't' ==> TextOf(frames + [f] + rest) == TextOf(frames + rest)
    ensures f == [] || f[0] != 'j' ==> ObjectsOf(frames + [f] + rest, parse) == ObjectsOf(frames + rest, parse)
    decreases |rest|
  {
    if rest == [] {
      assert frames + [f] + rest == frames + [f] && frames + rest == frames;
      FramesSnoc(frames, f, parse);
    } else {
      var init, last := rest[..|rest| - 1], rest[|rest| - 1];
      OtherChannels(frames, f, init, parse);
      assert frames + [f] + rest == (frames + [f] + init) + [last];
      assert frames + rest == (frames + init) + [last];
      FramesSnoc(frames + [f] + init, last, parse);
      FramesSnoc(frames + init, last, parse);
    }
  }

  /** A frame of the text channel adds its body to the text, one of the JSON channel its object. */
  lemma OwnChannel<J>(frames: seq<string>, body: string, parse: string -> Option<J>)
    ensures TextOf(frames + [['t'] + body]) == TextOf(frames) + body
    ensures parse(body).Some? ==> ObjectsOf(frames + [['j'] + body], parse) == ObjectsOf(frames, parse) + [parse(body).value]
  {
    FramesSnoc(frames, ['t'] + body, parse);
    FramesSnoc(frames, ['j'] + body, parse);
  }
}
