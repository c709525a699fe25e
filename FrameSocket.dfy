/**
 * The `/ws_frames` websocket session, written identically in main.py and
 * fast/server.py: each binary message is decoded as an image; an undecodable
 * one gets an error reply, a decoded one is saved under a counter-numbered
 * file name and the counter advances whether or not the save worked.
 *
 * Image decoding, the file write and the wall clock are inputs: each message
 * arrives already classified, with the image size, the timestamp text taken
 * at that moment, and what the write did.
 */
module FrameSocket {
  import Decimal

  /** What the file write did: finished, or raised with a message. */
  datatype SaveOutcome = SaveOk | SaveRaised(message: string)

  /** One received message, as the decoder and the writer saw it. */
  datatype Message =
    | Undecodable
    | Decoded(width: nat, height: nat, timestamp: string, save: SaveOutcome)

  const DecodeFailedReply: string := "ERR: decode failed"

  /** Width of the zero-padded counter in a file name. */
  const CounterWidth: nat := 4

  /**
   * `frame_<timestamp>_<counter:04d>.jpg`: the prefix, the timestamp as
   * given, an underscore, the counter padded to at least four digits, and
   * the extension.
   */
  function FrameFileName(timestamp: string, count: nat): (r: string)
    ensures var pad, n := Decimal.ZeroPad(count, CounterWidth), 6 + |timestamp|;
            && |r| == n + 1 + |pad| + 4
            && r[..6] == "frame_" && r[6..n] == timestamp && r[n] == '_'
            && r[n + 1..n + 1 + |pad|] == pad && r[n + 1 + |pad|..] == ".jpg"
            && Decimal.AllDigits(pad) && |pad| >= CounterWidth
  {
    var pre, sep, ext := "frame_", "_", ".jpg";
    var pad := Decimal.ZeroPad(count, CounterWidth);
    Pieces(pre, timestamp, sep, pad, ext);
    Decimal.ZeroPadShape(count, CounterWidth);
    var r := pre + timestamp + sep + pad + ext;
    assert r[6 + |timestamp|..7 + |timestamp|] == sep;
    r
  }

  /**
   * The reply to one message, given the counter value before it. Only an
   * undecodable message gets the decode error; a failed save names the
   * error it raised.
   */
  function Reply(m: Message, count: nat): (r: string)
    ensures |r| >= 5
    ensures r == DecodeFailedReply <==> m.Undecodable?
    ensures m.Decoded? && m.save.SaveRaised? ==>
              |r| == |SaveFailedPrefix| + |m.save.message| + 1
              && r[..|SaveFailedPrefix|] == SaveFailedPrefix
              && r[|SaveFailedPrefix|..|r| - 1] == m.save.message && r[|r| - 1] == ')'
  {
    match m
    case Undecodable => DecodeFailedReply
    case Decoded(w, h, ts, SaveOk) =>
      var r := OkReply(w, h, FrameFileName(ts, count));
      assert r[0] == "OK "[0];
      r
    case Decoded(_, _, _, SaveRaised(e)) =>
      var lit, close := SaveFailedPrefix, ")";
      var r := lit + e + close;
      assert r[..|lit|] == lit && r[|lit|..|r| - 1] == e;
      assert r[5] == lit[5] == 'c';
      r
  }

  /** The reply to a frame of `w` by `h` pixels saved as `name`. */
  function OkReply(w: nat, h: nat, name: string): (r: string)
    ensures |r| == 3 + |Decimal.Digits(w)| + 1 + |Decimal.Digits(h)| + 8 + |name| + 1
    ensures r[..3] == "OK "
  {
    var ok, x := "OK ", "x";
    var dw, dh, tail := Decimal.Digits(w), Decimal.Digits(h), " (saved " + name + ")";
    Pieces(ok, dw, x, dh, tail);
    ok + dw + x + dh + tail
  }

  /** The counter after a session: one step per decoded message, read from the last message back. */
  function FrameCount(msgs: seq<Message>): (r: nat)
    ensures r <= |msgs|
  {
    if msgs == [] then 0
    else FrameCount(msgs[..|msgs| - 1]) + (if msgs[|msgs| - 1].Decoded? then 1 else 0)
  }

  /** The replies a session sends, in order: exactly one per message. */
  function Replies(msgs: seq<Message>): (r: seq<string>)
    ensures |r| == |msgs|
  {
    if msgs == [] then []
    else
      var init := msgs[..|msgs| - 1];
      Replies(init) + [Reply(msgs[|msgs| - 1], FrameCount(init))]
  }

  /** The receive loop: one reply per message; the counter advances only on a decoded frame. */
  method Serve(msgs: seq<Message>) returns (replies: seq<string>, frameCount: nat)
    ensures replies == Replies(msgs)
    ensures frameCount == FrameCount(msgs)
  {
    replies, frameCount := [], 0;
    var i := 0;
    while i < |msgs|
      invariant 0 <= i <= |msgs|
      invariant replies == Replies(msgs[..i])
      invariant frameCount == FrameCount(msgs[..i])
    {
      SessionStep(msgs, i);
      ghost var before := frameCount;
      var m := msgs[i];
      var msg: string;
      match m {
        case Undecodable =>
          msg := DecodeFailedReply;
        case Decoded(w, h, ts, save) =>
          var name := FrameFileName(ts, frameCount);
          match save {
            case SaveOk =>
              msg := "OK " + Decimal.Digits(w) + "x" + Decimal.Digits(h) + " (saved " + name + ")";
            case SaveRaised(e) =>
              msg := "ERR: could not save frame (" + e + ")";
          }
          frameCount := frameCount + 1;
      }
      assert msg == Reply(m, before);
      replies := replies + [msg];
      i := i + 1;
    }
    assert msgs[..i] == msgs;
  }

  /** Extending a session by its next message appends that message's reply and advances the counter on a frame. */
  lemma SessionStep(msgs: seq<Message>, i: nat)
    requires i < |msgs|
    ensures Replies(msgs[..i + 1]) == Replies(msgs[..i]) + [Reply(msgs[i], FrameCount(msgs[..i]))]
    ensures FrameCount(msgs[..i + 1]) == FrameCount(msgs[..i]) + (if msgs[i].Decoded? then 1 else 0)
  {
    assert msgs[..i + 1][..i] == msgs[..i];
  }

  /** The reply to message i depends only on that message and the frames decoded before it. */
  lemma {:induction false} ReplyAt(msgs: seq<Message>, i: nat)
    requires i < |msgs|
    ensures |Replies(msgs)| == |msgs|
    ensures Replies(msgs)[i] == Reply(msgs[i], FrameCount(msgs[..i]))
  {
    var init := msgs[..|msgs| - 1];
    if i < |msgs| - 1 {
      ReplyAt(init, i);
      assert init[..i] == msgs[..i];
    }
  }

  /** The decoded messages, by position. */
  function DecodedPositions(msgs: seq<Message>): set<nat>
  {
    set i: nat | i < |msgs| && msgs[i].Decoded?
  }

  /** After a session the counter equals the number of decodable messages. */
  lemma {:induction false} FrameCountCountsDecoded(msgs: seq<Message>)
    ensures FrameCount(msgs) == |DecodedPositions(msgs)|
  {
    if msgs != [] {
      var n := |msgs| - 1;
      var init := msgs[..n];
      FrameCountCountsDecoded(init);
      if msgs[n].Decoded? {
        assert DecodedPositions(msgs) == DecodedPositions(init) + {n};
      } else {
        assert DecodedPositions(msgs) == DecodedPositions(init);
      }
    }
  }

  /** An undecodable message leaves the counter as it was; a decoded one advances it by exactly one. */
  lemma CounterStep(msgs: seq<Message>, m: Message)
    ensures FrameCount(msgs + [m]) == FrameCount(msgs) + (if m.Decoded? then 1 else 0)
  {
    assert (msgs + [m])[..|msgs|] == msgs;
  }

  /** The counter never goes back: a longer prefix of a session has seen at least as many frames. */
  lemma {:induction false} FrameCountMonotone(msgs: seq<Message>, i: nat, j: nat)
    requires i <= j <= |msgs|
    ensures FrameCount(msgs[..i]) <= FrameCount(msgs[..j])
    ensures i < j && msgs[i].Decoded? ==> FrameCount(msgs[..i]) < FrameCount(msgs[..j])
    decreases j - i
  {
    if i < j {
      FrameCountMonotone(msgs, i + 1, j);
      CounterStep(msgs[..i], msgs[i]);
      assert msgs[..i] + [msgs[i]] == msgs[..i + 1];
    }
  }

  /** Text that starts a reply to a frame whose save raised. */
  const SaveFailedPrefix: string := "ERR: could not save frame ("

  /** Each piece of a five-piece concatenation can be cut back out of it. */
  lemma Pieces(a: string, b: string, c: string, d: string, e: string)
    ensures var r := a + b + c + d + e;
            var i, j, k := |a|, |a| + |b|, |a| + |b| + |c|;
            && r[..i] == a && r[i..j] == b && r[j..k] == c
            && r[k..k + |d|] == d && r[k + |d|..] == e
  {
    var r := a + b + c + d + e;
    assert r == a + (b + (c + (d + e)));
  }

  /** The three kinds of reply are told apart by their first characters. */
  lemma ReplyKinds(m: Message, count: nat)
    ensures |Reply(m, count)| >= 5
    ensures Reply(m, count)[..3] == "OK " <==> m.Decoded? && m.save.SaveOk?
    ensures Reply(m, count)[..5] == "ERR: " <==> !(m.Decoded? && m.save.SaveOk?)
    ensures m.Undecodable? ==> Reply(m, count) == DecodeFailedReply
  {
    var r := Reply(m, count);
    match m
    case Undecodable =>
      assert r[0] == 'E';
    case Decoded(w, h, ts, SaveOk) =>
      OkReplyPieces(w, h, FrameFileName(ts, count));
      assert r[1] == "OK "[1];
    case Decoded(_, _, _, SaveRaised(e)) =>
      var lit := SaveFailedPrefix;
      assert r == lit + (e + ")");
      assert r[..5] == lit[..5] == "ERR: ";
      assert r[0] == 'E';
  }

  /**
   * A successful reply reports the width, then "x", then the height, then
   * the name the frame was saved under.
   */
  lemma OkReplyLayout(w: nat, h: nat, ts: string, count: nat)
    ensures var r := Reply(Decoded(w, h, ts, SaveOk), count);
            var dw, dh := Decimal.Digits(w), Decimal.Digits(h);
            && r[..3] == "OK "
            && r[3..3 + |dw|] == dw
            && r[3 + |dw|] == 'x'
            && r[4 + |dw|..4 + |dw| + |dh|] == dh
            && r[4 + |dw| + |dh|..] == " (saved " + FrameFileName(ts, count) + ")"
  {
    OkReplyPieces(w, h, FrameFileName(ts, count));
  }

  lemma OkReplyPieces(w: nat, h: nat, name: string)
    ensures var r := OkReply(w, h, name);
            var dw, dh := Decimal.Digits(w), Decimal.Digits(h);
            && r[..3] == "OK "
            && r[3..3 + |dw|] == dw
            && r[3 + |dw|] == 'x'
            && r[4 + |dw|..4 + |dw| + |dh|] == dh
            && r[4 + |dw| + |dh|..] == " (saved " + name + ")"
  {
    var ok, x := "OK ", "x";
    var dw, dh, tail := Decimal.Digits(w), Decimal.Digits(h), " (saved " + name + ")";
    assert OkReply(w, h, name) == ok + dw + x + dh + tail;
    Pieces(ok, dw, x, dh, tail);
    assert OkReply(w, h, name)[3 + |dw|..4 + |dw|] == x;
  }

  /**
   * File names never collide when the timestamps hold no underscore (the
   * server's `%H-%M-%S-%f` format never does): equal names mean equal
   * timestamps and equal counters.
   */
  lemma FrameFileNameInjective(t1: string, c1: nat, t2: string, c2: nat)
    requires '_' !in t1 && '_' !in t2
    requires FrameFileName(t1, c1) == FrameFileName(t2, c2)
    ensures t1 == t2 && c1 == c2
  {
    var pre, sep, ext := "frame_", "_", ".jpg";
    var p1, p2 := Decimal.ZeroPad(c1, CounterWidth), Decimal.ZeroPad(c2, CounterWidth);
    assert FrameFileName(t1, c1) == pre + (t1 + sep + p1) + ext;
    assert FrameFileName(t2, c2) == pre + (t2 + sep + p2) + ext;
    StripAffixes(pre, t1 + sep + p1, t2 + sep + p2, ext);
    SplitAtFirstUnderscore(t1, p1, t2, p2);
    Decimal.ZeroPadInjective(c1, c2, CounterWidth);
  }

  /** Equal texts with a common prefix and suffix agree in between. */
  lemma StripAffixes(pre: string, u1: string, u2: string, suf: string)
    requires pre + u1 + suf == pre + u2 + suf
    ensures u1 == u2
  {
    var s1, s2 := pre + u1 + suf, pre + u2 + suf;
    assert u1 == s1[|pre|..|s1| - |suf|];
    assert u2 == s2[|pre|..|s2| - |suf|];
  }

  /** Text joined at an underscore splits back at the first underscore. */
  lemma SplitAtFirstUnderscore(t1: string, p1: string, t2: string, p2: string)
    requires '_' !in t1 && '_' !in t2
    requires t1 + "_" + p1 == t2 + "_" + p2
    ensures t1 == t2 && p1 == p2
  {
    var u1, u2 := t1 + "_" + p1, t2 + "_" + p2;
    assert u1[|t1|] == '_' && u2[|t2|] == '_';
    assert |t1| == |t2|;
    assert t1 == u1[..|t1|] == u2[..|t2|] == t2;
    assert p1 == u1[|t1| + 1..] == u2[|t2| + 1..] == p2;
  }

  /**
   * Within one session, two successfully saved frames are saved under
   * different names, provided their timestamps hold no underscore.
   */
  lemma SavedNamesDistinct(msgs: seq<Message>, i: nat, j: nat)
    requires i < j < |msgs|
    requires msgs[i].Decoded? && msgs[j].Decoded?
    requires '_' !in msgs[i].timestamp && '_' !in msgs[j].timestamp
    ensures FrameFileName(msgs[i].timestamp, FrameCount(msgs[..i]))
         != FrameFileName(msgs[j].timestamp, FrameCount(msgs[..j]))
  {
    FrameCountMonotone(msgs, i, j);
    if FrameFileName(msgs[i].timestamp, FrameCount(msgs[..i]))
       == FrameFileName(msgs[j].timestamp, FrameCount(msgs[..j])) {
      FrameFileNameInjective(msgs[i].timestamp, FrameCount(msgs[..i]), msgs[j].timestamp, FrameCount(msgs[..j]));
    }
  }
}
