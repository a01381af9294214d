/** The wire format of nimd.c: send_msg prints frames `0|NN|payload|`, and receive_msg parses
    them out of a byte stream that read() may deliver in pieces of any size. */
module NimWire {
  import opened Options
  import opened CText

  const MAX_MSG_LEN: nat := 104

  function Min(a: nat, b: nat): nat {
    if a <= b then a else b
  }

  // ----- printing -----

  /** send_msg: the bytes written for a formatted payload, or nothing when it is too long.
      vsnprintf cuts the payload to 103 bytes first. */
  function Frame(payload: string): Option<string> {
    var p := CStr(payload)[..Min(|CStr(payload)|, MAX_MSG_LEN - 1)];
    if |p| + 1 > 99 then None
    else Some("0|" + TwoDigits(|p| + 1) + "|" + p + "|")
  }

  // ----- parsing -----

  datatype Received =
    | Closed
    | Invalid
    | Message(kind: string, body: string)

  /** receive_msg on the bytes that are still to come before the end of the stream: what it
      returns, and the bytes it leaves. */
  function Receive(s: string): (Received, string) {
    if |s| < 5 then (Closed, "")
    else if !GoodHeader(s) || !(1 <= Length(s) <= MAX_MSG_LEN) then (Invalid, s[5..])
    else if |s| < 5 + Length(s) then (Closed, "")
    else (Unwrap(s[5..5 + Length(s)]), s[5 + Length(s)..])
  }

  predicate GoodHeader(s: string)
    requires |s| >= 5
  {
    s[0] == '0' && s[1] == '|' && s[4] == '|' && IsDigit(s[2]) && IsDigit(s[3])
  }

  /** atoi of the two length digits. */
  function Length(s: string): nat
    requires |s| >= 5 && GoodHeader(s)
  {
    10 * DigitValue(s[2]) + DigitValue(s[3])
  }

  /** The body of a frame: it must end in a bar, which is cut off; the C string before it is
      split at its first bar. */
  function Unwrap(buf: string): Received
    requires buf != []
  {
    if buf[|buf| - 1] != '|' then Invalid
    else Split(CStr(buf[..|buf| - 1]))
  }

  function Split(text: string): Received {
    match Find(text, '|')
    case None => Invalid
    case Some(i) => Message(text[..i], text[i + 1..])
  }

  // ----- round trips -----

  /** Frames are exactly the payloads of at most 98 bytes. */
  lemma FrameLength(p: string)
    requires NUL !in p
    ensures Frame(p).Some? <==> |p| <= 98
    ensures |p| <= 98 ==> Frame(p).value == "0|" + TwoDigits(|p| + 1) + "|" + p + "|"
  {
    assert p[..|p|] == p;
  }

  /** Of a payload with a NUL only the C string before it counts. */
  lemma {:induction false} FrameOfAny(p: string)
    ensures Frame(p) == Frame(CStr(p))
  {
  }

  lemma HeaderOf(p: string, rest: string)
    requires |p| <= 98
    ensures var s := "0|" + TwoDigits(|p| + 1) + "|" + p + "|" + rest;
            && |s| == 6 + |p| + |rest| && GoodHeader(s) && Length(s) == |p| + 1
            && s[5..5 + Length(s)] == p + "|" && s[5 + Length(s)..] == rest
  {
    var h := "0|" + TwoDigits(|p| + 1) + "|";
    var s := h + p + "|" + rest;
    assert h == ['0', '|', Digit((|p| + 1) / 10), Digit((|p| + 1) % 10), '|'];
    assert s == h + (p + "|" + rest) == h + (p + "|") + rest;
  }

  /** Receiving undoes sending, at the head of any stream: the frame is consumed exactly; its
      payload comes back split at its first bar, or is rejected when it has none. */
  lemma RoundTrip(p: string, rest: string)
    requires NUL !in p && |p| <= 98
    ensures Frame(p).Some? && Receive(Frame(p).value + rest) == (Split(p), rest)
    ensures Split(p) == Invalid <==> '|' !in p
    ensures Split(p).Message? ==> p == Split(p).kind + "|" + Split(p).body && '|' !in Split(p).kind
  {
    hide CStr, Find, TwoDigits, DigitValue;
    FrameLength(p);
    HeaderOf(p, rest);
    ReceiveFrame("0|" + TwoDigits(|p| + 1) + "|" + p + "|" + rest, p, rest);
    SplitFacts(p);
  }

  lemma ReceiveFrame(s: string, p: string, rest: string)
    requires NUL !in p && |p| <= 98 && |s| == 6 + |p| + |rest| && GoodHeader(s) && Length(s) == |p| + 1
    requires s[5..5 + Length(s)] == p + "|" && s[5 + Length(s)..] == rest
    ensures Receive(s) == (Split(p), rest)
  {
    hide Split, GoodHeader, Length;
    assert (p + "|")[..|p|] == p;
  }

  lemma SplitFacts(p: string)
    ensures Split(p) == Invalid <==> '|' !in p
    ensures Split(p).Message? || Split(p).Invalid?
    ensures Split(p).Message? ==> p == Split(p).kind + "|" + Split(p).body && '|' !in Split(p).kind
  {
  }

  // ----- what is received of any bytes -----

  /** The five bytes of a header that announces `n` bytes. */
  predicate Announces(s: string, n: nat) {
    n < 100 && |s| >= 5 && s[..5] == "0|" + TwoDigits(n) + "|"
  }

  lemma AnnouncesIff(s: string, n: nat)
    requires |s| >= 5
    ensures Announces(s, n) <==> GoodHeader(s) && Length(s) == n
  {
    if n < 100 {
      var h := "0|" + TwoDigits(n) + "|";
      assert h == ['0', '|', Digit(n / 10), Digit(n % 10), '|'];
      assert s[..5] == [s[0], s[1], s[2], s[3], s[4]];
      if GoodHeader(s) && Length(s) == n {
        assert DigitValue(s[2]) == n / 10 && DigitValue(s[3]) == n % 10;
      }
    }
  }

  /** What a header that announces `n` bytes leads to. A stream that ends before them counts
      as closed. Otherwise they are consumed; they hold a message exactly when the last of
      them is a bar, and before it, up to any NUL, there is another: its first bar separates
      type and body. If not, they are invalid. */
  lemma ReceivesAnnounced(s: string, n: nat)
    requires Announces(s, n) && 1 <= n
    ensures |s| < 5 + n ==> Receive(s) == (Closed, "")
    ensures 5 + n <= |s| ==>
              var (m, rest) := Receive(s); var text := CStr(s[5..4 + n]);
              && rest == s[5 + n..]
              && (m.Message? <==> s[4 + n] == '|' && '|' in text)
              && (m.Message? ==> m.kind + "|" + m.body == text && '|' !in m.kind)
              && (m.Message? || m.Invalid?)
  {
    hide *;
    AnnouncedHeader(s, n);
    ReceivesLength(s, n);
    if 5 + n <= |s| {
      UnwrapIff(s[5..5 + n]);
      BodyOf(s, n);
    }
  }

  lemma AnnouncedHeader(s: string, n: nat)
    requires Announces(s, n)
    ensures n < 100 && |s| >= 5 && GoodHeader(s) && Length(s) == n
  {
    AnnouncesIff(s, n);
  }

  lemma ReceivesLength(s: string, n: nat)
    requires |s| >= 5 && GoodHeader(s) && Length(s) == n && 1 <= n < 100
    ensures Receive(s) == if |s| < 5 + n then (Closed, "") else (Unwrap(s[5..5 + n]), s[5 + n..])
  {
    hide GoodHeader, Length, Unwrap;
  }

  lemma BodyOf(s: string, n: nat)
    requires 1 <= n && 5 + n <= |s|
    ensures s[5..5 + n][..n - 1] == s[5..4 + n] && s[5..5 + n][n - 1] == s[4 + n]
  {
  }

  lemma UnwrapIff(buf: string)
    requires buf != []
    ensures var m, text := Unwrap(buf), CStr(buf[..|buf| - 1]);
            && (m.Message? <==> buf[|buf| - 1] == '|' && '|' in text)
            && (m.Message? ==> m.kind + "|" + m.body == text && '|' !in m.kind)
            && (m.Message? || m.Invalid?)
  {
    hide CStr, Split;
    SplitFacts(CStr(buf[..|buf| - 1]));
  }

  /** Without such a header the stream is closed, if it ends before five bytes, and otherwise
      invalid; only the five bytes are consumed. */
  lemma ReceivesUnannounced(s: string)
    requires forall n: nat | 1 <= n :: !Announces(s, n)
    ensures Receive(s) == if |s| < 5 then (Closed, "") else (Invalid, s[5..])
  {
    if |s| >= 5 && GoodHeader(s) && 1 <= Length(s) {
      AnnouncesIff(s, Length(s));
    }
  }

  /** The two parts of a message are C strings. */
  predicate IsText(m: Received) {
    m.Message? ==> NUL !in m.kind && NUL !in m.body
  }

  /** Whatever the peer sends, what is received is made of C strings. */
  lemma ReceivesText(s: string)
    ensures IsText(Receive(s).0)
  {
    if |s| >= 5 && GoodHeader(s) && 1 <= Length(s) && 5 + Length(s) <= |s| {
      hide Split, CStr;
      var buf := s[5..5 + Length(s)];
      SplitIsText(CStr(buf[..|buf| - 1]));
    }
  }

  lemma SplitIsText(text: string)
    requires NUL !in text
    ensures IsText(Split(text))
  {
    hide Find;
  }

  /** The stream that sending the payloads one after another writes. */
  function Stream(ps: seq<string>): string {
    if ps == [] then ""
    else (match Frame(ps[0]) case None => "" case Some(f) => f) + Stream(ps[1..])
  }

  /** Repeated receive_msg: `n` messages and what is left of the stream. */
  function ReceiveMany(s: string, n: nat): (seq<Received>, string)
    decreases n
  {
    if n == 0 then ([], s)
    else
      var (m, rest) := Receive(s);
      var (ms, end) := ReceiveMany(rest, n - 1);
      ([m] + ms, end)
  }

  function SplitAll(ps: seq<string>): seq<Received> {
    if ps == [] then [] else [Split(ps[0])] + SplitAll(ps[1..])
  }

  /** Any sequence of payloads sent is received again, message by message, in order. */
  lemma {:induction false} StreamRoundTrip(ps: seq<string>, rest: string)
    requires forall i :: 0 <= i < |ps| ==> NUL !in ps[i] && |ps[i]| <= 98
    ensures ReceiveMany(Stream(ps) + rest, |ps|) == (SplitAll(ps), rest)
  {
    if ps == [] {
      assert Stream(ps) + rest == rest;
    } else {
      hide *;
      var tail := Stream(ps[1..]) + rest;
      StreamHead(ps, rest);
      RoundTrip(ps[0], tail);
      StreamRoundTrip(ps[1..], rest);
      ReceiveHead(Stream(ps) + rest, tail, ps);
    }
  }

  lemma {:induction false} StreamHead(ps: seq<string>, rest: string)
    requires ps != [] && NUL !in ps[0] && |ps[0]| <= 98
    ensures Frame(ps[0]).Some? && Stream(ps) + rest == Frame(ps[0]).value + (Stream(ps[1..]) + rest)
  {
    FrameLength(ps[0]);
    StreamCons(ps, Frame(ps[0]).value);
    hide *;
    Regroup(Frame(ps[0]).value, Stream(ps[1..]), rest);
  }

  lemma {:induction false} StreamCons(ps: seq<string>, f: string)
    requires ps != [] && Frame(ps[0]) == Some(f)
    ensures Stream(ps) == f + Stream(ps[1..])
  {
    hide Frame;
  }

  lemma Regroup(a: string, b: string, c: string)
    ensures a + b + c == a + (b + c)
  {
  }

  lemma {:induction false} ReceiveHead(s: string, tail: string, ps: seq<string>)
    requires ps != [] && Receive(s) == (Split(ps[0]), tail)
    ensures ReceiveMany(s, |ps|).0 == [Split(ps[0])] + ReceiveMany(tail, |ps| - 1).0
    ensures ReceiveMany(s, |ps|).1 == ReceiveMany(tail, |ps| - 1).1
    ensures SplitAll(ps) == [Split(ps[0])] + SplitAll(ps[1..])
  {
    hide Receive, Split;
  }

  /** A connection that ends inside a frame is reported as closed. */
  lemma TruncatedFrame(p: string, n: nat)
    requires NUL !in p && |p| <= 98 && n < |p| + 6
    ensures Frame(p).Some? && |Frame(p).value| == |p| + 6
    ensures Receive(Frame(p).value[..n]) == (Closed, "")
  {
    FrameLength(p);
    HeaderOf(p, "");
    var s := Frame(p).value;
    assert s + "" == s;
    var t := s[..n];
    if n >= 5 {
      assert t[0] == s[0] && t[1] == s[1] && t[2] == s[2] && t[3] == s[3] && t[4] == s[4];
    }
  }

  /** Printing inverts parsing: a message received from a NUL-free stream was sent as the
      one frame that send_msg prints for it. */
  lemma OnlyFramesAreReceived(s: string)
    requires NUL !in s && Receive(s).0.Message?
    ensures var (m, rest) := Receive(s);
            Frame(m.kind + "|" + m.body).Some? && s == Frame(m.kind + "|" + m.body).value + rest
  {
    var n := Length(s);
    var p := s[5..4 + n];
    assert s[5..5 + n] == p + "|" && (p + "|")[..n - 1] == p;
    UnwrapFacts(p);
    FrameLength(p);
    FrameBytes(s, p);
  }

  lemma UnwrapFacts(p: string)
    requires NUL !in p && Unwrap(p + "|").Message?
    ensures var m := Unwrap(p + "|"); p == m.kind + "|" + m.body
  {
    assert (p + "|")[..|p|] == p;
  }

  lemma FrameBytes(s: string, p: string)
    requires |s| >= 5 && GoodHeader(s) && 1 <= Length(s) && 5 + Length(s) <= |s|
    requires s[5..5 + Length(s)] == p + "|"
    ensures |p| <= 98 && s == "0|" + TwoDigits(|p| + 1) + "|" + p + "|" + s[5 + Length(s)..]
  {
    var n := Length(s);
    assert n / 10 == DigitValue(s[2]) && n % 10 == DigitValue(s[3]);
    assert s[..5] == "0|" + TwoDigits(n) + "|";
    assert s == s[..5] + s[5..5 + n] + s[5 + n..];
  }

  // ----- the socket -----

  /** A connection: the bytes the peer will still deliver before the end of the stream, and
      the bytes written to it. */
  class Socket {
    var incoming: string
    var outgoing: string

    constructor (incoming: string)
      ensures this.incoming == incoming && outgoing == ""
    {
      this.incoming, outgoing := incoming, "";
    }

    /** read(2): at least one byte and at most `count`, as many as the kernel likes; none at
        the end of the stream. */
    method Read(count: nat) returns (data: string)
      requires count > 0
      modifies this`incoming
      ensures old(incoming) == data + incoming && |data| <= count
      ensures data == "" <==> old(incoming) == ""
    {
      if incoming == "" {
        return "";
      }
      var r: nat :| 1 <= r <= count && r <= |incoming|;
      data := incoming[..r];
      incoming := incoming[r..];
    }

    /** read_n: exactly `count` bytes, however read() splits them, or failure (-1) when the
        stream ends before. */
    method ReadN(count: nat) returns (buf: Option<string>)
      modifies this`incoming
      ensures |old(incoming)| < count ==> buf == None && incoming == ""
      ensures count <= |old(incoming)| ==> buf == Some(old(incoming)[..count]) && incoming == old(incoming)[count..]
    {
      var data := "";
      while |data| < count
        invariant |data| <= count && old(incoming) == data + incoming
        decreases count - |data|
      {
        var r := Read(count - |data|);
        if r == "" {
          return None;
        }
        data := data + r;
      }
      return Some(data);
    }

    /** send_msg. */
    method SendMsg(payload: string) returns (ok: bool)
      modifies this`outgoing
      ensures ok == Frame(payload).Some?
      ensures outgoing == old(outgoing) + if ok then Frame(payload).value else ""
    {
      var text := CStr(payload)[..Min(|CStr(payload)|, MAX_MSG_LEN - 1)];
      var len := |text|;
      if len + 1 > 99 {
        return false;
      }
      outgoing := outgoing + ("0|" + TwoDigits(len + 1) + "|" + text + "|");
      return true;
    }

    /** receive_msg: -1 (Closed), 10 (Invalid) or a message. */
    method ReceiveMsg() returns (m: Received)
      modifies this`incoming
      ensures (m, incoming) == Receive(old(incoming))
    {
      ghost var s := incoming;
      hide CStr, Find, DigitValue;
      var header := ReadN(5);
      if header.None? {
        return Closed;
      }
      var h := header.value;
      if h[0] != '0' || h[1] != '|' || h[4] != '|' {
        return Invalid;
      }
      if !IsDigit(h[2]) || !IsDigit(h[3]) {
        return Invalid;
      }
      var len := 10 * DigitValue(h[2]) + DigitValue(h[3]);
      assert GoodHeader(s) && len == Length(s) && incoming == s[5..];
      if len < 1 || len > MAX_MSG_LEN {
        return Invalid;
      }
      var body := ReadN(len);
      if body.None? {
        return Closed;
      }
      var buf := body.value;
      assert buf == s[5..5 + len] && incoming == s[5 + len..];
      if buf[len - 1] != '|' {
        return Invalid;
      }
      var text := CStr(buf[..len - 1]);
      var bar := Find(text, '|');
      if bar.None? {
        return Invalid;
      }
      return Message(text[..bar.value], text[bar.value + 1..]);
    }
  }
}
