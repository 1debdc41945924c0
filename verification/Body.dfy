/** HTTP message bodies: what a poll can yield, and what a whole body means. */
module Body {
  import opened Wrappers
  import opened Framing

  type Metadata = seq<(string, string)>

  /** One item a body yields when polled. `Pending` is a poll that yields nothing yet. */
  datatype Event = Data(bytes: Bytes) | Trailers(fields: Metadata) | Error(code: Code) | Pending

  /**
   A body that will yield the events of `script`, and then its end for as long as
   it is asked.  `endPolls` counts how often it has been asked past its end.
   */
  class ScriptedBody {
    var script: seq<Event>
    var endPolls: nat

    constructor (script: seq<Event>)
      ensures this.script == script && endPolls == 0
    {
      this.script, endPolls := script, 0;
    }

    /** None is the end of the body. */
    method Poll() returns (r: Option<Event>)
      modifies this
      ensures old(script) == [] ==> r == None && script == [] && endPolls == old(endPolls) + 1
      ensures old(script) != [] ==> r == Some(old(script)[0]) && script == old(script)[1..] && endPolls == old(endPolls)
    {
      if script == [] {
        endPolls := endPolls + 1;
        return None;
      }
      r := Some(script[0]);
      script := script[1..];
    }
  }

  function Carried(e: Event): Bytes {
    if e.Data? then e.bytes else []
  }

  /** The bytes of every data frame, in order. */
  function DataBytes(script: seq<Event>): Bytes {
    if script == [] then [] else Carried(script[0]) + DataBytes(script[1..])
  }

  lemma {:induction false} DataBytesAppend(a: seq<Event>, b: seq<Event>)
    ensures DataBytes(a + b) == DataBytes(a) + DataBytes(b)
  {
    if a == [] {
      assert a + b == b;
    } else {
      DataBytesAppend(a[1..], b);
      assert (a + b)[1..] == a[1..] + b;
      Associative(Carried(a[0]), DataBytes(a[1..]), DataBytes(b));
    }
  }

  lemma DataBytesSplit(script: seq<Event>, k: nat)
    requires k <= |script|
    ensures DataBytes(script) == DataBytes(script[..k]) + DataBytes(script[k..])
  {
    assert script == script[..k] + script[k..];
    DataBytesAppend(script[..k], script[k..]);
  }

  // ----- What a body means: its events up to fragmentation and delay -----

  /** The bytes up to the first frame that is not data, and how the body goes on from there. */
  datatype Stream = Stream(bytes: Bytes, after: After)
  datatype After = Ends | Fails(code: Code) | Continues(fields: Metadata, more: Stream)

  function Meaning(script: seq<Event>): Stream {
    if script == [] then Stream([], Ends)
    else match script[0]
      case Pending => Meaning(script[1..])
      case Data(d) => var m := Meaning(script[1..]); Stream(d + m.bytes, m.after)
      case Trailers(t) => Stream([], Continues(t, Meaning(script[1..])))
      case Error(c) => Stream([], Fails(c))
  }
}
