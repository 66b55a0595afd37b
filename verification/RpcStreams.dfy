/** ProofRPC server-to-client streams (`rpc.rs`): the server's frame loops and the client's frame listener. */
module RpcStreams {
  import opened Common
  import BulkChunk
  import Canonical

  type Value = Canonical.Json

  datatype RpcError = SeqMismatch(expected: nat, got: nat) | Remote(text: string)

  datatype ShellStream = Stdin | Stdout | Stderr

  datatype MethodKind = ServerStreaming | Subscribe | CommandChannel | RemoteShell | AgentSession

  /** The metadata beside a frame. */
  datatype Ext = Ext(kind: MethodKind, topic: Option<string>, credit: Option<nat>, ack: Option<string>,
                     shell: Option<ShellStream>, chain: Option<seq<string>>)

  datatype Frame =
    | Stream(callId: string, seqNo: int, more: bool, value: Option<Value>, error: Option<RpcError>, ext: Option<Ext>)
    | Response(callId: string, ok: bool, value: Option<Value>, error: Option<RpcError>)

  /** What a stream handler puts on its channel. */
  type Item = Result<Value, RpcError>

  /** A piece of output of a remote shell. */
  datatype ShellOut = ShellOut(stream: ShellStream, data: seq<byte>)

  /** A value of an agent session with the actors responsible for it. */
  datatype AgentFrame = AgentFrame(value: Value, chain: seq<string>)

  /** Serializing and parsing a frame: an optional field holding `null` comes back absent. */
  function Wire(f: Frame): Frame {
    if f.value == Some(Canonical.Null) then f.(value := None) else f
  }

  // ---------- Server ----------

  /** A value on its way to the client, with the tags it travels with. */
  datatype Payload = Payload(value: Value, shell: Option<ShellStream>, chain: Option<seq<string>>)

  function Bare(kind: MethodKind): Ext { Ext(kind, None, None, None, None, None) }

  /** Frame `i` of a stream: a payload, or the end frame behind the last one. */
  function FrameAt(callId: string, kind: MethodKind, ps: seq<Payload>, end: Option<RpcError>, i: nat): Frame
    requires i <= |ps|
  {
    if i < |ps| then
      Stream(callId, i, true, Some(ps[i].value), None, Some(Bare(kind).(shell := ps[i].shell, chain := ps[i].chain)))
    else Stream(callId, i, false, None, end, Some(Bare(kind)))
  }

  /** The numbered frames of a stream. */
  function Frames(callId: string, kind: MethodKind, ps: seq<Payload>, end: Option<RpcError>): seq<Frame> {
    seq(|ps| + 1, i requires 0 <= i <= |ps| => FrameAt(callId, kind, ps, end, i))
  }

  /** The values before the first error. */
  function Values(items: seq<Item>): seq<Value> {
    if items == [] || items[0].Err? then [] else [items[0].value] + Values(items[1..])
  }

  /** The first error, which ends the stream. */
  function EndError(items: seq<Item>): Option<RpcError> {
    if items == [] then None
    else if items[0].Err? then Some(items[0].error)
    else EndError(items[1..])
  }

  function Untagged(vs: seq<Value>): seq<Payload> {
    seq(|vs|, i requires 0 <= i < |vs| => Payload(vs[i], None, None))
  }

  function ItemFrames(callId: string, kind: MethodKind, items: seq<Item>): seq<Frame> {
    Frames(callId, kind, Untagged(Values(items)), EndError(items))
  }

  lemma {:induction false} ValuesAt(items: seq<Item>, n: nat)
    requires n <= |items| && forall i :: 0 <= i < n ==> items[i].Ok?
    requires n == |items| || items[n].Err?
    ensures |Values(items)| == n && forall i :: 0 <= i < n ==> Values(items)[i] == items[i].value
    ensures EndError(items) == if n == |items| then None else Some(items[n].error)
  {
    if n > 0 {
      ValuesAt(items[1..], n - 1);
    }
  }

  lemma FramesOfItems(callId: string, kind: MethodKind, items: seq<Item>, n: nat, sent: seq<Frame>)
    requires n <= |items| && forall i :: 0 <= i < n ==> items[i].Ok?
    requires n == |items| || items[n].Err?
    requires |sent| == n + 1
    requires forall i :: 0 <= i < n ==>
      sent[i] == Stream(callId, i, true, Some(items[i].value), None, Some(Bare(kind)))
    requires sent[n] ==
      Stream(callId, n, false, None, if n == |items| then None else Some(items[n].error), Some(Bare(kind)))
    ensures sent == ItemFrames(callId, kind, items)
  {
    ValuesAt(items, n);
  }

  method RunServerStreamLoop(callId: string, kind: MethodKind, items: seq<Item>) returns (sent: seq<Frame>)
    ensures sent == ItemFrames(callId, kind, items)
  {
    sent := [];
    var n := 0;
    while n < |items|
      invariant 0 <= n <= |items| && |sent| == n
      invariant forall i :: 0 <= i < n ==>
        items[i].Ok? && sent[i] == Stream(callId, i, true, Some(items[i].value), None, Some(Bare(kind)))
    {
      match items[n] {
        case Ok(v) =>
          sent := sent + [Stream(callId, n, true, Some(v), None, Some(Bare(kind)))];
          n := n + 1;
        case Err(e) =>
          sent := sent + [Stream(callId, n, false, None, Some(e), Some(Bare(kind)))];
          FramesOfItems(callId, kind, items, n, sent);
          return;
      }
    }
    sent := sent + [Stream(callId, n, false, None, None, Some(Bare(kind)))];
    FramesOfItems(callId, kind, items, n, sent);
  }

  /** A frame outside the numbering. */
  function Ack(callId: string, more: bool, ext: Ext): Frame { Stream(callId, -1, more, None, None, Some(ext)) }

  function Subscribed(topic: Option<string>): Ext { Bare(Subscribe).(ack := Some("subscribed"), topic := topic) }

  function Unsubscribed(): Ext { Bare(Subscribe).(ack := Some("unsubscribed")) }

  function Granted(credit: nat): Ext { Bare(CommandChannel).(credit := Some(credit)) }

  /** A call whose answer is a stream, with what its handler produces. */
  datatype Call =
    | StreamCall(items: seq<Item>)
    | SubscribeCall(topic: Option<string>, items: seq<Item>)
    | CommandCall(credit: nat, items: seq<Item>)
    | ShellCall(outputs: seq<ShellOut>)
    | AgentCall(initial: seq<string>, frames: seq<AgentFrame>)

  function KindOf(call: Call): MethodKind {
    match call
    case StreamCall(_) => ServerStreaming
    case SubscribeCall(_, _) => Subscribe
    case CommandCall(_, _) => CommandChannel
    case ShellCall(_) => RemoteShell
    case AgentCall(_, _) => AgentSession
  }

  predicate HasItems(call: Call) { call.StreamCall? || call.SubscribeCall? || call.CommandCall? }

  function ShellPayload(out: ShellOut): Payload { Payload(BulkChunk.Encode(out.data), Some(out.stream), None) }

  function AgentPayload(frame: AgentFrame): Payload { Payload(frame.value, None, Some(frame.chain)) }

  function Payloads(call: Call): seq<Payload> {
    match call
    case ShellCall(outs) => seq(|outs|, i requires 0 <= i < |outs| => ShellPayload(outs[i]))
    case AgentCall(_, frames) => seq(|frames|, i requires 0 <= i < |frames| => AgentPayload(frames[i]))
    case _ => Untagged(Values(call.items))
  }

  /** Only handlers of item streams can end in an error. */
  function EndOf(call: Call): Option<RpcError> { if HasItems(call) then EndError(call.items) else None }

  /** The numbered frames of a call. */
  function Emitted(callId: string, call: Call): seq<Frame> {
    Frames(callId, KindOf(call), Payloads(call), EndOf(call))
  }

  /** The acknowledgements before the numbered frames. */
  function Before(callId: string, call: Call): seq<Frame> {
    match call
    case SubscribeCall(topic, _) => [Ack(callId, true, Subscribed(topic))]
    case CommandCall(credit, _) => [Ack(callId, true, Granted(credit))]
    case _ => []
  }

  /** The acknowledgements behind the numbered frames. */
  function After(callId: string, call: Call): seq<Frame> {
    if call.SubscribeCall? then [Ack(callId, false, Unsubscribed())] else []
  }

  /** Everything the server sends for a call. */
  function Sent(callId: string, call: Call): seq<Frame> {
    Before(callId, call) + Emitted(callId, call) + After(callId, call)
  }

  method DispatchSubscribe(callId: string, topic: Option<string>, items: seq<Item>) returns (sent: seq<Frame>)
    ensures sent == Sent(callId, SubscribeCall(topic, items))
  {
    sent := [Ack(callId, true, Subscribed(topic))];
    var stream := RunServerStreamLoop(callId, Subscribe, items);
    sent := sent + stream;
    sent := sent + [Ack(callId, false, Unsubscribed())];
  }

  method DispatchCommandChannel(callId: string, credit: nat, items: seq<Item>) returns (sent: seq<Frame>)
    ensures sent == Sent(callId, CommandCall(credit, items))
  {
    sent := [Ack(callId, true, Granted(credit))];
    var n, ext := 0, Bare(CommandChannel);
    while n < |items|
      invariant 0 <= n <= |items| && |sent| == n + 1 && sent[0] == Ack(callId, true, Granted(credit))
      invariant forall i :: 0 <= i < n ==>
        items[i].Ok? && sent[i + 1] == Stream(callId, i, true, Some(items[i].value), None, Some(ext))
    {
      match items[n] {
        case Ok(v) =>
          sent := sent + [Stream(callId, n, true, Some(v), None, Some(ext))];
          n := n + 1;
        case Err(e) =>
          sent := sent + [Stream(callId, n, false, None, Some(e), Some(ext))];
          FramesOfItems(callId, CommandChannel, items, n, sent[1..]);
          return;
      }
    }
    sent := sent + [Stream(callId, n, false, None, None, Some(ext))];
    FramesOfItems(callId, CommandChannel, items, n, sent[1..]);
  }

  lemma ShellFrame(callId: string, outputs: seq<ShellOut>, i: nat)
    requires i <= |outputs|
    ensures |Sent(callId, ShellCall(outputs))| == |outputs| + 1
    ensures Sent(callId, ShellCall(outputs))[i] ==
      if i < |outputs| then
        Stream(callId, i, true, Some(BulkChunk.Encode(outputs[i].data)), None,
               Some(Bare(RemoteShell).(shell := Some(outputs[i].stream))))
      else Stream(callId, i, false, None, None, Some(Bare(RemoteShell)))
  {
    hide BulkChunk.Encode;
    var call := ShellCall(outputs);
    assert Sent(callId, call) == Emitted(callId, call);
  }

  method DispatchRemoteShell(callId: string, outputs: seq<ShellOut>) returns (sent: seq<Frame>)
    ensures sent == Sent(callId, ShellCall(outputs))
  {
    hide Sent, BulkChunk.Encode;
    sent := [];
    ghost var all := Sent(callId, ShellCall(outputs));
    ShellFrame(callId, outputs, |outputs|);
    for n := 0 to |outputs|
      invariant |sent| == n
      invariant forall i :: 0 <= i < n ==> sent[i] == all[i]
    {
      var encoded := BulkChunk.Encode(outputs[n].data);
      var ext := Bare(RemoteShell).(shell := Some(outputs[n].stream));
      sent := sent + [Stream(callId, n, true, Some(encoded), None, Some(ext))];
      ShellFrame(callId, outputs, n);
    }
    sent := sent + [Stream(callId, |outputs|, false, None, None, Some(Bare(RemoteShell)))];
  }

  lemma AgentSessionFrame(callId: string, initial: seq<string>, frames: seq<AgentFrame>, i: nat)
    requires i <= |frames|
    ensures |Sent(callId, AgentCall(initial, frames))| == |frames| + 1
    ensures Sent(callId, AgentCall(initial, frames))[i] ==
      if i < |frames| then
        Stream(callId, i, true, Some(frames[i].value), None,
               Some(Bare(AgentSession).(chain := Some(frames[i].chain))))
      else Stream(callId, i, false, None, None, Some(Bare(AgentSession)))
  {
    var call := AgentCall(initial, frames);
    assert Sent(callId, call) == Emitted(callId, call);
  }

  method DispatchAgentSession(callId: string, initial: seq<string>, frames: seq<AgentFrame>) returns (sent: seq<Frame>)
    ensures sent == Sent(callId, AgentCall(initial, frames))
  {
    hide Sent;
    sent := [];
    ghost var all := Sent(callId, AgentCall(initial, frames));
    AgentSessionFrame(callId, initial, frames, |frames|);
    for n := 0 to |frames|
      invariant |sent| == n
      invariant forall i :: 0 <= i < n ==> sent[i] == all[i]
    {
      var ext := Bare(AgentSession).(chain := Some(frames[n].chain));
      sent := sent + [Stream(callId, n, true, Some(frames[n].value), None, Some(ext))];
      AgentSessionFrame(callId, initial, frames, n);
    }
    sent := sent + [Stream(callId, |frames|, false, None, None, Some(Bare(AgentSession)))];
  }

  // ---------- Client ----------

  /** An open call; a stream remembers the number it expects and the tags it saw last. */
  datatype Pending =
    | Unary
    | Streaming(nextSeq: nat, lastShell: Option<ShellStream>, lastActors: Option<seq<string>>)
    | ShellStreaming(nextSeq: nat, lastStream: ShellStream)
    | AgentStreaming(nextSeq: nat, lastChain: seq<string>)

  /** What the caller of a stream receives. */
  datatype Delivery =
    | Got(value: Value)
    | GotOutput(output: ShellOut)
    | GotFrame(frame: AgentFrame)
    | Failed(error: RpcError)

  /** Open calls, and what has been handed to the caller of each stream. */
  datatype Client = Client(pending: map<string, Pending>, handed: map<string, seq<Delivery>>)

  function HandedTo(c: Client, id: string): seq<Delivery> { if id in c.handed then c.handed[id] else [] }

  function Give(c: Client, id: string, y: Delivery): Client { c.(handed := c.handed[id := HandedTo(c, id) + [y]]) }

  function Close(c: Client, id: string): Client { c.(pending := c.pending - {id}) }

  function OrElse<T>(a: Option<T>, b: T): T { if a.Some? then a.value else b }

  function ShellTag(ext: Option<Ext>): Option<ShellStream> { if ext.Some? then ext.value.shell else None }

  function ChainTag(ext: Option<Ext>): Option<seq<string>> { if ext.Some? then ext.value.chain else None }

  /** The stream after a frame with the number it expected: tags that are present replace those seen last. */
  function Advance(p: Pending, ext: Option<Ext>): Pending
    requires !p.Unary?
  {
    match p
    case Streaming(n, shell, actors) =>
      Streaming(n + 1, if ShellTag(ext).Some? then ShellTag(ext) else shell,
                if ChainTag(ext).Some? then ChainTag(ext) else actors)
    case ShellStreaming(n, stream) => ShellStreaming(n + 1, OrElse(ShellTag(ext), stream))
    case AgentStreaming(n, chain) => AgentStreaming(n + 1, OrElse(ChainTag(ext), chain))
  }

  /** What a stream that has advanced makes of a value. */
  function Output(p: Pending, v: Value): Delivery {
    match p
    case ShellStreaming(_, stream) => GotOutput(ShellOut(stream, BulkChunk.Decode(v)))
    case AgentStreaming(_, chain) => GotFrame(AgentFrame(v, chain))
    case _ => Got(v)
  }

  /** A stream frame for an open stream. */
  function OnStream(c: Client, p: Pending, f: Frame): Client
    requires f.Stream? && !p.Unary?
  {
    var id := f.callId;
    if f.seqNo < 0 then if f.more then c else Close(c, id)
    else if f.seqNo != p.nextSeq then Close(Give(c, id, Failed(SeqMismatch(p.nextSeq, f.seqNo))), id)
    else
      var p' := Advance(p, f.ext);
      var c' := c.(pending := c.pending[id := p']);
      if f.more then if f.value.Some? then Give(c', id, Output(p', f.value.value)) else c'
      else if f.error.Some? then Close(Give(c', id, Failed(f.error.value)), id)
      else Close(c', id)
  }

  /** A unary response: an absent value reads as null, an absent error as a placeholder. */
  function UnaryResult(ok: bool, value: Option<Value>, error: Option<RpcError>): Delivery {
    if ok then Got(OrElse(value, Canonical.Null)) else Failed(OrElse(error, Remote("(no error body)")))
  }

  /** The client's frame listener. */
  function OnFrame(c: Client, f: Frame): Client {
    var id := f.callId;
    if f.Response? then
      if id in c.pending && c.pending[id].Unary? then Close(Give(c, id, UnaryResult(f.ok, f.value, f.error)), id)
      else Close(c, id)
    else if id in c.pending && !c.pending[id].Unary? then OnStream(c, c.pending[id], f)
    else c
  }

  function Deliver(c: Client, frames: seq<Frame>): Client
    decreases frames
  {
    if frames == [] then c else Deliver(OnFrame(c, frames[0]), frames[1..])
  }

  class RpcClient {
    var pending: map<string, Pending>
    var handed: map<string, seq<Delivery>>

    ghost function Abs(): Client
      reads this
    {
      Client(pending, handed)
    }

    constructor ()
      ensures Abs() == Client(map[], map[])
    {
      pending, handed := map[], map[];
    }

    method Send(id: string, y: Delivery)
      modifies this`handed
      ensures handed == Give(old(Abs()), id, y).handed
    {
      handed := handed[id := (if id in handed then handed[id] else []) + [y]];
    }

    method Listen(frame: Frame)
      modifies this
      ensures Abs() == OnFrame(old(Abs()), frame)
    {
      var id := frame.callId;
      if frame.Response? {
        if id in pending && pending[id].Unary? {
          Send(id, UnaryResult(frame.ok, frame.value, frame.error));
        }
        pending := pending - {id};
        return;
      }
      if id !in pending || pending[id].Unary? {
        return;
      }
      if frame.seqNo < 0 {
        if !frame.more {
          pending := pending - {id};
        }
        return;
      }
      var next := pending[id].nextSeq;
      if frame.seqNo != next {
        Send(id, Failed(SeqMismatch(next, frame.seqNo)));
        pending := pending - {id};
        return;
      }
      if frame.more {
        TakeValue(frame);
      } else {
        if frame.error.Some? {
          Send(id, Failed(frame.error.value));
        }
        pending := pending - {id};
      }
    }

    /** The part of the listener that tells the kinds of stream apart. */
    method TakeValue(frame: Frame)
      requires frame.Stream? && frame.more
      requires frame.callId in pending && !pending[frame.callId].Unary? && frame.seqNo == pending[frame.callId].nextSeq
      modifies this
      ensures Abs() == OnStream(old(Abs()), old(pending[frame.callId]), frame)
    {
      var id, ext := frame.callId, frame.ext;
      match pending[id] {
        case Streaming(n, shell, actors) =>
          var lastShell, lastActors := shell, actors;
          if ext.Some? {
            if ext.value.shell.Some? {
              lastShell := ext.value.shell;
            }
            if ext.value.chain.Some? {
              lastActors := ext.value.chain;
            }
          }
          pending := pending[id := Streaming(n + 1, lastShell, lastActors)];
          if frame.value.Some? {
            Send(id, Got(frame.value.value));
          }
        case ShellStreaming(n, last) =>
          var stream := OrElse(ShellTag(ext), last);
          pending := pending[id := ShellStreaming(n + 1, stream)];
          if frame.value.Some? {
            Send(id, GotOutput(ShellOut(stream, BulkChunk.Decode(frame.value.value))));
          }
        case AgentStreaming(n, last) =>
          var chain := OrElse(ChainTag(ext), last);
          pending := pending[id := AgentStreaming(n + 1, chain)];
          if frame.value.Some? {
            Send(id, GotFrame(AgentFrame(frame.value.value, chain)));
          }
      }
    }
  }

  // ---------- Calls do not disturb each other ----------

  /** What the rest of the client can see of one call. */
  predicate SameCall(a: Client, b: Client, id: string) {
    && HandedTo(a, id) == HandedTo(b, id)
    && (id in a.pending <==> id in b.pending)
    && (id in a.pending ==> a.pending[id] == b.pending[id])
  }

  lemma OtherCallUntouched(c: Client, f: Frame, id: string)
    requires f.callId != id
    ensures SameCall(OnFrame(c, f), c, id)
  {
    hide Advance, Output, UnaryResult;
  }

  lemma SameCallStep(a: Client, b: Client, f: Frame, id: string)
    requires SameCall(a, b, id) && f.callId == id
    ensures SameCall(OnFrame(a, f), OnFrame(b, f), id)
  {
    hide Advance, Output, UnaryResult;
  }

  function Only(frames: seq<Frame>, id: string): seq<Frame> {
    if frames == [] then []
    else (if frames[0].callId == id then [frames[0]] else []) + Only(frames[1..], id)
  }

  /** A call fares exactly as if the frames of all other calls had never arrived. */
  lemma {:induction false} OnlyOwnFramesMatter(a: Client, b: Client, frames: seq<Frame>, id: string)
    requires SameCall(a, b, id)
    ensures SameCall(Deliver(a, frames), Deliver(b, Only(frames, id)), id)
    decreases frames
  {
    if frames != [] {
      var f := frames[0];
      if f.callId == id {
        SameCallStep(a, b, f, id);
        OnlyOwnFramesMatter(OnFrame(a, f), OnFrame(b, f), frames[1..], id);
        assert Only(frames, id)[1..] == Only(frames[1..], id);
      } else {
        OtherCallUntouched(a, f, id);
        OnlyOwnFramesMatter(OnFrame(a, f), b, frames[1..], id);
        assert Only(frames, id) == Only(frames[1..], id);
      }
    }
  }

  /** Acknowledgement frames (negative sequence numbers) never hand anything to a caller. */
  lemma AcksYieldNothing(c: Client, f: Frame, id: string)
    requires f.Stream? && f.seqNo < 0
    ensures HandedTo(OnFrame(c, f), id) == HandedTo(c, id)
  {
    hide Advance, Output, UnaryResult;
  }

  // ---------- What a call owes its caller ----------

  /** What the caller should get for payload `i`. */
  function Intended(call: Call, i: nat): Delivery
    requires i < |Payloads(call)|
  {
    match call
    case ShellCall(outs) => GotOutput(outs[i])
    case AgentCall(_, frames) => GotFrame(frames[i])
    case _ => Got(Values(call.items)[i])
  }

  /** What the caller can get out of the first `k` payloads: `null` does not survive the wire. */
  function Owed(call: Call, k: nat): seq<Delivery>
    requires k <= |Payloads(call)|
  {
    if k == 0 then []
    else Owed(call, k - 1) + if Payloads(call)[k - 1].value.Null? then [] else [Intended(call, k - 1)]
  }

  /** How the client registers a call. */
  function Opening(call: Call): Pending {
    match call
    case ShellCall(_) => ShellStreaming(0, Stdout)
    case AgentCall(initial, _) => AgentStreaming(0, initial)
    case _ => Streaming(0, None, None)
  }

  /** An open stream of the right kind that expects frame `k`. */
  predicate Expects(p: Pending, call: Call, k: nat) {
    match p
    case Unary => false
    case Streaming(n, _, _) => HasItems(call) && n == k
    case ShellStreaming(n, _) => call.ShellCall? && n == k
    case AgentStreaming(n, _) => call.AgentCall? && n == k
  }

  /** Whatever tags came before, an open stream hands over payload `k` as it was meant. */
  lemma OutputIntended(p: Pending, call: Call, k: nat)
    requires k < |Payloads(call)| && Expects(p, call, k)
    ensures
      var payload := Payloads(call)[k];
      var p' := Advance(p, Some(Bare(KindOf(call)).(shell := payload.shell, chain := payload.chain)));
      Expects(p', call, k + 1) && Output(p', payload.value) == Intended(call, k)
  {
    if call.ShellCall? {
      BulkChunk.ChunkComesBack(call.outputs[k].data);
    }
    hide BulkChunk.Encode, BulkChunk.Decode;
  }

  // ---------- Loss, duplication and reordering ----------

  /** `f` reached the client from the server's side of this call. */
  predicate FromServer(f: Frame, id: string, call: Call) {
    exists i :: 0 <= i < |Sent(id, call)| && f == Wire(Sent(id, call)[i])
  }

  function CallFrame(id: string, call: Call, i: nat): (f: Frame)
    requires i <= |Payloads(call)|
    ensures f.Stream? && f.callId == id && f.seqNo == i
  {
    FrameAt(id, KindOf(call), Payloads(call), EndOf(call), i)
  }

  lemma SentAt(id: string, call: Call, i: nat)
    requires i < |Sent(id, call)|
    ensures
      var at, f := i - |Before(id, call)|, Sent(id, call)[i];
      f.Stream? && f.callId == id && if 0 <= at <= |Payloads(call)| then f == CallFrame(id, call, at) else f.seqNo < 0
  {
    hide Payloads, EndOf;
    assert |Emitted(id, call)| == |Payloads(call)| + 1;
  }

  /** The possible shapes of a frame from the server: an acknowledgement, a payload, or the end. */
  lemma FrameShapes(f: Frame, id: string, call: Call)
    requires FromServer(f, id, call)
    ensures f.Stream? && f.callId == id
    ensures f.seqNo < 0 || f.seqNo <= |Payloads(call)|
    ensures 0 <= f.seqNo <= |Payloads(call)| ==> f == Wire(CallFrame(id, call, f.seqNo))
  {
    var i :| 0 <= i < |Sent(id, call)| && f == Wire(Sent(id, call)[i]);
    hide Sent, Before, Payloads, EndOf, CallFrame;
    SentAt(id, call, i);
  }

  /** The stream is open, and its caller has had what comes before the next expected frame. */
  predicate OpenAt(c: Client, id: string, call: Call, k: nat) {
    && k <= |Payloads(call)|
    && id in c.pending
    && Expects(c.pending[id], call, k)
    && HandedTo(c, id) == Owed(call, k)
  }

  /** The stream is over: the caller had the first `k` payloads and possibly one final error. */
  ghost predicate OverAt(c: Client, id: string, call: Call, k: nat) {
    && k <= |Payloads(call)|
    && id !in c.pending
    && var ys := HandedTo(c, id);
       || ys == Owed(call, k)
       || (exists got :: ys == Owed(call, k) + [Failed(SeqMismatch(k, got))])
       || (k == |Payloads(call)| && EndOf(call).Some? && ys == Owed(call, k) + [Failed(EndOf(call).value)])
  }

  ghost predicate At(c: Client, id: string, call: Call, k: nat) {
    OpenAt(c, id, call, k) || OverAt(c, id, call, k)
  }

  lemma PayloadStep(c: Client, f: Frame, id: string, call: Call, k: nat)
    requires OpenAt(c, id, call, k) && k < |Payloads(call)| && f == Wire(CallFrame(id, call, k))
    ensures OpenAt(OnFrame(c, f), id, call, k + 1)
  {
    OutputIntended(c.pending[id], call, k);
    hide Payloads, Intended, Expects, Advance, Output, EndOf;
  }

  lemma EndStep(c: Client, f: Frame, id: string, call: Call, k: nat)
    requires OpenAt(c, id, call, k) && k == |Payloads(call)| && f == Wire(CallFrame(id, call, k))
    ensures
      var c' := OnFrame(c, f);
      && id !in c'.pending
      && HandedTo(c', id) == Owed(call, k) + if EndOf(call).Some? then [Failed(EndOf(call).value)] else []
    ensures OverAt(OnFrame(c, f), id, call, k)
  {
    hide Payloads, Intended, EndOf, Advance, Output, Owed;
  }

  lemma UnexpectedStep(c: Client, f: Frame, id: string, call: Call, k: nat)
    requires OpenAt(c, id, call, k) && f.Stream? && f.callId == id && f.seqNo != k
    ensures At(OnFrame(c, f), id, call, k)
  {
    hide Payloads, Intended, EndOf, Advance, Output, Owed;
    if f.seqNo >= 0 {
      assert HandedTo(OnFrame(c, f), id) == Owed(call, k) + [Failed(SeqMismatch(k, f.seqNo))];
    }
  }

  lemma OpenStep(c: Client, f: Frame, id: string, call: Call, k: nat) returns (j: nat)
    requires OpenAt(c, id, call, k) && FromServer(f, id, call)
    ensures At(OnFrame(c, f), id, call, j)
  {
    hide *;
    FrameShapes(f, id, call);
    j := k;
    if f.seqNo != k {
      UnexpectedStep(c, f, id, call, k);
    } else if k < |Payloads(call)| {
      PayloadStep(c, f, id, call, k);
      j := k + 1;
      OpenIsAt(OnFrame(c, f), id, call, j);
    } else {
      EndStep(c, f, id, call, k);
      OverIsAt(OnFrame(c, f), id, call, k);
    }
  }

  lemma OpenIsAt(c: Client, id: string, call: Call, k: nat)
    requires OpenAt(c, id, call, k)
    ensures At(c, id, call, k)
  {
    hide OpenAt, OverAt;
  }

  lemma OverIsAt(c: Client, id: string, call: Call, k: nat)
    requires OverAt(c, id, call, k)
    ensures At(c, id, call, k)
  {
    hide OpenAt, OverAt;
  }

  lemma OverStep(c: Client, f: Frame, id: string, call: Call, k: nat)
    requires OverAt(c, id, call, k) && f.Stream? && f.callId == id
    ensures OnFrame(c, f) == c
  {
  }

  /** Every frame of this call came from its server; frames of other calls are unrestricted. */
  predicate Arrivals(frames: seq<Frame>, id: string, call: Call) {
    forall i :: 0 <= i < |frames| && frames[i].callId == id ==> FromServer(frames[i], id, call)
  }

  lemma ArrivalStep(c: Client, f: Frame, id: string, call: Call, k: nat) returns (j: nat)
    requires At(c, id, call, k) && (f.callId == id ==> FromServer(f, id, call))
    ensures At(OnFrame(c, f), id, call, j)
  {
    hide FromServer, OnFrame, OpenAt, OverAt;
    j := k;
    if f.callId != id {
      OtherCallKeeps(c, f, id, call, k);
    } else if OpenAt(c, id, call, k) {
      j := OpenStep(c, f, id, call, k);
    } else {
      FrameShapes(f, id, call);
      OverStep(c, f, id, call, k);
    }
  }

  lemma OtherCallKeeps(c: Client, f: Frame, id: string, call: Call, k: nat)
    requires At(c, id, call, k) && f.callId != id
    ensures At(OnFrame(c, f), id, call, k)
  {
    OtherCallUntouched(c, f, id);
    hide Payloads, Owed, EndOf, OnFrame, Expects;
  }

  lemma {:induction false} ArrivalRun(c: Client, frames: seq<Frame>, id: string, call: Call, k: nat) returns (j: nat)
    requires At(c, id, call, k) && Arrivals(frames, id, call)
    ensures At(Deliver(c, frames), id, call, j)
    decreases frames
  {
    hide At, FromServer, OnFrame;
    j := k;
    if frames != [] {
      j := ArrivalStep(c, frames[0], id, call, k);
      j := ArrivalRun(OnFrame(c, frames[0]), frames[1..], id, call, j);
    }
  }

  /** A call the client has just registered. */
  predicate Registered(c: Client, id: string, call: Call) {
    id in c.pending && c.pending[id] == Opening(call) && HandedTo(c, id) == []
  }

  /**
   * However the server's frames of a call are lost, repeated or reordered on the way, and whatever
   * arrives for other calls, the caller gets a prefix of what the handler produced, then at most one
   * error: a sequence mismatch, or the handler's own error behind everything else.
   */
  lemma ChaosSafety(c: Client, frames: seq<Frame>, id: string, call: Call)
    requires Registered(c, id, call) && Arrivals(frames, id, call)
    ensures exists k :: At(Deliver(c, frames), id, call, k)
  {
    assert OpenAt(c, id, call, 0);
    var k := ArrivalRun(c, frames, id, call, 0);
  }

  /** Once a stream is over nothing that arrives is handed to its caller any more. */
  lemma {:induction false} NothingAfterEnd(c: Client, frames: seq<Frame>, id: string)
    requires id !in c.pending
    ensures id !in Deliver(c, frames).pending && HandedTo(Deliver(c, frames), id) == HandedTo(c, id)
    decreases frames
  {
    if frames != [] {
      if frames[0].callId != id {
        OtherCallUntouched(c, frames[0], id);
      }
      NothingAfterEnd(OnFrame(c, frames[0]), frames[1..], id);
    }
  }

  // ---------- Delivery in order ----------

  function WireAll(frames: seq<Frame>): seq<Frame> { seq(|frames|, i requires 0 <= i < |frames| => Wire(frames[i])) }

  lemma {:induction false} DeliverAppend(c: Client, a: seq<Frame>, b: seq<Frame>)
    ensures Deliver(c, a + b) == Deliver(Deliver(c, a), b)
    decreases a
  {
    hide OnFrame;
    if a == [] {
      assert a + b == b;
    } else {
      assert (a + b)[0] == a[0] && (a + b)[1..] == a[1..] + b;
      DeliverAppend(OnFrame(c, a[0]), a[1..], b);
    }
  }

  /** What the caller of a stream gets in the end. */
  function Everything(call: Call): seq<Delivery> {
    Owed(call, |Payloads(call)|) + if EndOf(call).Some? then [Failed(EndOf(call).value)] else []
  }

  /** The call is closed and its caller has had everything. */
  predicate Done(c: Client, id: string, call: Call) { id !in c.pending && HandedTo(c, id) == Everything(call) }

  lemma {:induction false} DeliverFrom(c: Client, id: string, call: Call, k: nat)
    requires OpenAt(c, id, call, k)
    ensures Done(Deliver(c, WireAll(Emitted(id, call))[k..]), id, call)
    decreases |Payloads(call)| - k
  {
    hide OnFrame, Owed, EndOf, Payloads, Expects;
    var all := WireAll(Emitted(id, call));
    var f, c' := all[k], OnFrame(c, all[k]);
    assert f == Wire(CallFrame(id, call, k));
    assert all[k..][0] == f && all[k..][1..] == all[k + 1..];
    if k < |Payloads(call)| {
      PayloadStep(c, f, id, call, k);
      DeliverFrom(c', id, call, k + 1);
    } else {
      EndStep(c, f, id, call, k);
      assert all[k + 1..] == [];
    }
  }

  lemma DeliverOne(c: Client, f: Frame)
    ensures Deliver(c, [f]) == OnFrame(c, f)
  {
    assert [f][1..] == [];
  }

  /** The opening acknowledgement changes nothing, and the closing one comes after the end. */
  lemma AcksChangeNothing(c: Client, id: string, call: Call)
    ensures Deliver(c, WireAll(Before(id, call))) == c
    ensures id !in c.pending ==> Deliver(c, WireAll(After(id, call))) == c
  {
    var before, after := Before(id, call), After(id, call);
    if before != [] {
      assert WireAll(before) == [Wire(before[0])];
      DeliverOne(c, Wire(before[0]));
    }
    if after != [] {
      assert WireAll(after) == [Wire(after[0])];
      DeliverOne(c, Wire(after[0]));
    }
  }

  lemma WireAppend(a: seq<Frame>, b: seq<Frame>)
    ensures WireAll(a + b) == WireAll(a) + WireAll(b)
  {
    hide Wire;
  }

  lemma DeliverSent(c: Client, id: string, call: Call)
    requires OpenAt(c, id, call, 0)
    ensures Done(Deliver(c, WireAll(Sent(id, call))), id, call)
  {
    var before, body, after := Before(id, call), Emitted(id, call), After(id, call);
    DeliverFrom(c, id, call, 0);
    assert WireAll(body)[0..] == WireAll(body);
    WireAppend(before, body);
    WireAppend(before + body, after);
    hide Deliver, OpenAt, Everything, Emitted, Before, After, WireAll;
    AcksChangeNothing(c, id, call);
    AcksChangeNothing(Deliver(c, WireAll(body)), id, call);
    DeliverAppend(c, WireAll(before), WireAll(body));
    DeliverAppend(c, WireAll(before) + WireAll(body), WireAll(after));
  }

  /**
   * When a call's frames arrive in order, with any frames of other calls in between, the caller
   * gets everything that is not null, then the handler's error if there was one, and the call is closed.
   */
  lemma InOrderDelivery(c: Client, frames: seq<Frame>, id: string, call: Call)
    requires Registered(c, id, call) && Only(frames, id) == WireAll(Sent(id, call))
    ensures Done(Deliver(c, frames), id, call)
  {
    assert OpenAt(c, id, call, 0);
    OnlyOwnFramesMatter(c, c, frames, id);
    DeliverSent(c, id, call);
  }

  predicate NoNull(call: Call, k: nat)
    requires k <= |Payloads(call)|
  {
    forall i :: 0 <= i < k ==> !Payloads(call)[i].value.Null?
  }

  lemma {:induction false} OwedLength(call: Call, k: nat)
    requires k <= |Payloads(call)|
    ensures |Owed(call, k)| <= k
    ensures |Owed(call, k)| == k <==> NoNull(call, k)
    ensures NoNull(call, k) ==> forall i :: 0 <= i < k ==> Owed(call, k)[i] == Intended(call, i)
  {
    hide Payloads, Intended;
    if k > 0 {
      OwedLength(call, k - 1);
    }
  }

  /** In-order delivery hands over everything the handler produced exactly when none of it is null. */
  lemma AllValuesIffNoNull(call: Call)
    ensures
      var n, owed := |Payloads(call)|, Owed(call, |Payloads(call)|);
      |owed| == n && (forall i :: 0 <= i < n ==> owed[i] == Intended(call, i)) <==> NoNull(call, n)
  {
    OwedLength(call, |Payloads(call)|);
  }

  /** The output of a remote shell is never null, so it arrives whole, each piece under its own tag. */
  lemma ShellOutputIntact(outputs: seq<ShellOut>)
    ensures |Everything(ShellCall(outputs))| == |outputs|
    ensures forall i :: 0 <= i < |outputs| ==> Everything(ShellCall(outputs))[i] == GotOutput(outputs[i])
  {
    var call := ShellCall(outputs);
    OwedLength(call, |outputs|);
    assert NoNull(call, |outputs|);
  }

  // ---------- Unary calls ----------

  /** The one frame `dispatch_unary` sends. */
  function Answer(callId: string, r: Item): Frame {
    match r
    case Ok(v) => Response(callId, true, Some(v), None)
    case Err(e) => Response(callId, false, None, Some(e))
  }

  /** Until a response of its own arrives, an open unary call stays as it is. */
  lemma {:induction false} UnaryWaits(c: Client, frames: seq<Frame>, id: string)
    requires id in c.pending && c.pending[id].Unary?
    requires forall f :: f in frames && f.callId == id ==> f.Stream?
    ensures SameCall(Deliver(c, frames), c, id)
    decreases frames
  {
    if frames != [] {
      if frames[0].callId != id {
        OtherCallUntouched(c, frames[0], id);
      }
      UnaryWaits(OnFrame(c, frames[0]), frames[1..], id);
    }
  }

  /**
   * The caller of a unary call gets exactly what the handler returned, null included, and gets it once: whatever
   * arrives for other calls, whatever stream frames come before, and whatever comes after.
   */
  lemma UnaryAnswered(c: Client, before: seq<Frame>, r: Item, after: seq<Frame>, id: string)
    requires id in c.pending && c.pending[id].Unary? && HandedTo(c, id) == []
    requires forall f :: f in before && f.callId == id ==> f.Stream?
    ensures var end := Deliver(c, before + [Wire(Answer(id, r))] + after);
      && id !in end.pending
      && HandedTo(end, id) == [match r case Ok(v) => Got(v) case Err(e) => Failed(e)]
  {
    var answer := Wire(Answer(id, r));
    var waiting := Deliver(c, before);
    UnaryWaits(c, before, id);
    DeliverAppend(c, before, [answer]);
    DeliverOne(waiting, answer);
    DeliverAppend(c, before + [answer], after);
    NothingAfterEnd(OnFrame(waiting, answer), after, id);
  }
}
