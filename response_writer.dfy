/**
 * The http.ResponseWriter a spy wraps. The real writer belongs to net/http and
 * is not part of this model; it is stood in for by a Recorder, which keeps its
 * header map, logs every call it receives, and answers each Write from a queue
 * of scripted replies, so that any short write or transfer error a real writer
 * could report can be played back.
 */
module ResponseWriter {
  import opened Wrappers

  newtype byte = x: int | 0 <= x < 256

  /** A transfer error reported by the underlying writer's Write. */
  datatype WriteError = WriteError(reason: string)

  /** net/http's Header: a canonical header name mapped to its values. */
  type Header = map<string, seq<string>>

  /** One call that reached the underlying writer. */
  datatype Event = HeaderSent(code: int) | BytesSent(p: seq<byte>)

  /** The answer to one Write: at most `limit` bytes are accepted, and `err` is returned. */
  datatype Reply = Reply(limit: nat, err: Option<WriteError>)

  /**
   * The (count, error) pair the recorder's Write returns for `p` while
   * `replies` are pending: the whole of `p` and no error once the script is
   * exhausted. The count never exceeds |p|, as io.Writer requires.
   */
  function Outcome(replies: seq<Reply>, p: seq<byte>): (r: (nat, Option<WriteError>))
    ensures r.0 <= |p|
    ensures replies == [] ==> r == (|p|, None)
    ensures replies != [] ==> r.1 == replies[0].err
  {
    if replies == [] then (|p|, None)
    else if replies[0].limit < |p| then (replies[0].limit, replies[0].err)
    else (|p|, replies[0].err)
  }

  class Recorder {
    var header: Header
    var log: seq<Event>
    var replies: seq<Reply>

    constructor (header: Header, replies: seq<Reply>)
      ensures this.header == header && this.replies == replies && log == []
    {
      this.header := header;
      this.replies := replies;
      log := [];
    }

    method Write(p: seq<byte>) returns (n: nat, err: Option<WriteError>)
      modifies this
      ensures (n, err) == Outcome(old(replies), p)
      ensures log == old(log) + [BytesSent(p)]
      ensures replies == if old(replies) == [] then [] else old(replies)[1..]
      ensures header == old(header)
    {
      n, err := Outcome(replies, p).0, Outcome(replies, p).1;
      if replies != [] {
        replies := replies[1..];
      }
      log := log + [BytesSent(p)];
    }

    method WriteHeader(code: int)
      modifies this
      ensures log == old(log) + [HeaderSent(code)]
      ensures replies == old(replies) && header == old(header)
    {
      log := log + [HeaderSent(code)];
    }
  }
}
