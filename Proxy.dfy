/** `forward_data`: one direction of a proxied connection. Sockets are
    replaced by the sequence of chunks the reader returns (each with the
    time it was read) and by the sequence of chunks written; the shared
    `rate_limits` table is the mutable field of `MeshProxy`. */
module Proxy {
  import opened Wrappers
  import opened Frame
  import opened RateLimit
  import opened Policy
  import NodeId

  /** The `direction` argument: `"client_to_remote"` or `"remote_to_local"`. */
  datatype Direction = ClientToRemote | RemoteToLocal

  /** One `reader.read(512)` result and the time at which the policy looks
      at it. An empty chunk is end of stream. */
  datatype Arrival = Arrival(data: seq<byte>, now: int)

  /** Why the loop ended: end of stream, or a refusal by the policy. */
  datatype Ending = EndOfStream | Rejected(verdict: Verdict)

  /** What one direction wrote, the table it left, and how it ended. */
  datatype Relayed = Relayed(written: seq<seq<byte>>, table: Table, ending: Ending)

  /** The chunks read before end of stream. */
  function StreamData(input: seq<Arrival>): (s: seq<seq<byte>>)
    ensures |s| <= |input|
    ensures forall i :: 0 <= i < |s| ==> s[i] == input[i].data && s[i] != []
    ensures |s| < |input| ==> input[|s|].data == []
    decreases |input|
  {
    if input == [] || input[0].data == [] then [] else [input[0].data] + StreamData(input[1..])
  }

  /** The loop of `forward_data`: every chunk is written unchanged and in
      order until end of stream, except that on the remote-to-local
      direction a chunk the policy refuses is not written and ends the loop.
      What is written is therefore a prefix of what was read; the
      client-to-remote direction writes everything and never touches the
      table. */
  function Relay(limits: Limits, lists: Lists, decoder: seq<byte> -> Option<FromRadio>,
                 dir: Direction, t: Table, input: seq<Arrival>): Relayed
    decreases |input|
  {
    if input == [] || input[0].data == [] then Relayed([], t, EndOfStream)
    else
      var d := if dir == RemoteToLocal then Inspect(limits, lists, decoder, t, input[0].data, input[0].now)
               else Decision(Allow, t);
      if d.verdict != Allow then Relayed([], d.table, Rejected(d.verdict))
      else
        var rest := Relay(limits, lists, decoder, dir, d.table, input[1..]);
        Relayed([input[0].data] + rest.written, rest.table, rest.ending)
  }

  /** `r` with the chunks `w` written before it. */
  function Prefixed(w: seq<seq<byte>>, r: Relayed): Relayed {
    r.(written := w + r.written)
  }

  /** One step of the loop: an allowed chunk is written and the rest
      relayed from the table the check left; a refused one ends it. */
  lemma RelayStep(limits: Limits, lists: Lists, decoder: seq<byte> -> Option<FromRadio>,
                  dir: Direction, t: Table, input: seq<Arrival>, i: nat)
    requires i < |input| && input[i].data != []
    ensures var d := if dir == RemoteToLocal then Inspect(limits, lists, decoder, t, input[i].data, input[i].now)
                     else Decision(Allow, t);
      var r := Relay(limits, lists, decoder, dir, t, input[i..]);
      if d.verdict != Allow then r == Relayed([], d.table, Rejected(d.verdict))
      else
        var rest := Relay(limits, lists, decoder, dir, d.table, input[i + 1..]);
        r == Relayed([input[i].data] + rest.written, rest.table, rest.ending)
  {
    assert input[i..][0] == input[i] && input[i..][1..] == input[i + 1..];
  }

  /** What the relay writes is a prefix of what it read: all of it at end
      of stream, and less when the policy refused a chunk, which happens only
      on the remote-to-local direction. The client-to-remote direction
      writes everything and leaves the table as it was. The chunk that is
      refused is the one after the last chunk written, and it is attributed
      to a node that is not whitelisted: a chunk decoding to `False` is
      always written. */
  lemma {:induction false} RelayWritesPrefix(limits: Limits, lists: Lists, decoder: seq<byte> -> Option<FromRadio>,
                                             dir: Direction, t: Table, input: seq<Arrival>)
    ensures var r := Relay(limits, lists, decoder, dir, t, input);
      && r.written <= StreamData(input)
      && (r.ending == EndOfStream <==> r.written == StreamData(input))
      && (r.ending.Rejected? ==> dir == RemoteToLocal && r.ending.verdict != Allow)
      && (r.ending.Rejected? ==>
            && |r.written| < |StreamData(input)|
            && var a := DecodeNodeId(input[|r.written|].data, decoder);
            && a.Sender? && NodeId.IntToNodeId(a.node) !in lists.whitelist)
      && (dir == ClientToRemote ==> r == Relayed(StreamData(input), t, EndOfStream))
      && (WellFormed(t) ==> WellFormed(r.table))
    decreases |input|
  {
    if input != [] && input[0].data != [] {
      var d := if dir == RemoteToLocal then Inspect(limits, lists, decoder, t, input[0].data, input[0].now)
               else Decision(Allow, t);
      if d.verdict == Allow {
        RelayWritesPrefix(limits, lists, decoder, dir, d.table, input[1..]);
        assert StreamData(input) == [input[0].data] + StreamData(input[1..]);
        var r := Relay(limits, lists, decoder, dir, d.table, input[1..]);
        if r.ending.Rejected? {
          assert input[1 + |r.written|] == input[1..][|r.written|];
        }
      }
    }
  }

  /** Traffic the decoder does not attribute, or attributes to whitelisted
      nodes only, passes through unchanged and leaves the table alone. */
  lemma {:induction false} UninspectedTrafficPassesThrough(limits: Limits, lists: Lists,
      decoder: seq<byte> -> Option<FromRadio>, t: Table, input: seq<Arrival>)
    requires forall i :: 0 <= i < |input| ==>
      var a := DecodeNodeId(input[i].data, decoder);
      a.Sender? ==> NodeId.IntToNodeId(a.node) in lists.whitelist
    ensures Relay(limits, lists, decoder, RemoteToLocal, t, input) == Relayed(StreamData(input), t, EndOfStream)
    decreases |input|
  {
    if input != [] && input[0].data != [] {
      assert forall i :: 0 <= i < |input| - 1 ==> input[1..][i] == input[i + 1];
      UninspectedTrafficPassesThrough(limits, lists, decoder, t, input[1..]);
    }
  }

  /** No cross-node interaction: the row of a node that no chunk is
      attributed to is the same after the relay as before. */
  lemma {:induction false} OtherNodesUntouched(limits: Limits, lists: Lists,
      decoder: seq<byte> -> Option<FromRadio>, dir: Direction, t: Table, input: seq<Arrival>, n: uint32)
    requires forall i :: 0 <= i < |input| ==> DecodeNodeId(input[i].data, decoder) != Sender(n)
    ensures var r := Relay(limits, lists, decoder, dir, t, input);
      (n in r.table <==> n in t) && (n in t ==> r.table[n] == t[n])
    decreases |input|
  {
    if input != [] && input[0].data != [] {
      var d := if dir == RemoteToLocal then Inspect(limits, lists, decoder, t, input[0].data, input[0].now)
               else Decision(Allow, t);
      assert (n in d.table <==> n in t) && (n in t ==> d.table[n] == t[n]);
      if d.verdict == Allow {
        assert forall i :: 0 <= i < |input| - 1 ==> input[1..][i] == input[i + 1];
        OtherNodesUntouched(limits, lists, decoder, dir, d.table, input[1..], n);
      }
    }
  }

  /** The proxy's shared state: the configuration and lists loaded at start,
      the parser, and the `rate_limits` table. */
  class MeshProxy {
    const limits: Limits
    const lists: Lists
    const decoder: seq<byte> -> Option<FromRadio>
    var table: Table

    ghost predicate Valid()
      reads this
    {
      WellFormed(table)
    }

    /** Start-up: `DELETE FROM rate_limits` leaves the table empty. */
    constructor (limits: Limits, lists: Lists, decoder: seq<byte> -> Option<FromRadio>)
      ensures Valid()
      ensures this.limits == limits && this.lists == lists && this.decoder == decoder
      ensures table == map[]
    {
      this.limits := limits;
      this.lists := lists;
      this.decoder := decoder;
      table := map[];
    }

    /** `is_node_blocked(node_id)`. */
    method IsNodeBlocked(node: uint32, now: int) returns (blocked: bool)
      requires Valid()
      modifies this
      ensures Valid()
      ensures Outcome(blocked, table) == BlockCheck(old(table), node, now)
    {
      if node in table {
        var blockedUntil := table[node].blockedUntil;
        if blockedUntil > now {
          return true;
        }
        table := table[node := table[node].(blockedUntil := 0)];
      }
      return false;
    }

    /** `check_rate_limit(node_id)`. */
    method CheckRateLimit(node: uint32, now: int) returns (ok: bool)
      requires Valid()
      modifies this
      ensures Valid()
      ensures Outcome(ok, table) == RateCheck(limits, old(table), node, now)
    {
      if node in table {
        var messageCount := table[node].messageCount;
        var lastMessageTime := table[node].lastMessageTime;
        if now - lastMessageTime > RESET_AFTER {
          messageCount := 0;
        }
        if messageCount >= limits.messages {
          return false;
        }
        table := table[node := table[node].(messageCount := table[node].messageCount + 1,
                                            lastMessageTime := now)];
      } else {
        table := table[node := Record(1, now, 0)];
      }
      return true;
    }

    /** `block_node(node_id)`. */
    method BlockNode(node: uint32, now: int)
      requires Valid()
      modifies this
      ensures Valid()
      ensures table == BlockUpdate(limits, old(table), node, now)
    {
      var blockUntil := now + limits.timeframe * 60;
      if node in table {
        table := table[node := table[node].(blockedUntil := blockUntil)];
      }
    }

    /** The checks `forward_data` runs on one remote-to-local chunk, in
        the source's order: decode, whitelist, blacklist, block, rate limit
        (calling `block_node` when the rate limit fails). */
    method InspectChunk(data: seq<byte>, now: int) returns (verdict: Verdict)
      requires Valid()
      modifies this
      ensures Valid()
      ensures Decision(verdict, table) == Inspect(limits, lists, decoder, old(table), data, now)
    {
      var attribution := DecodeNodeId(data, decoder);
      if attribution.NotAttributable? {
        return Allow;
      }
      var node := attribution.node;
      var id := NodeId.IntToNodeId(node);
      if id in lists.whitelist {
        verdict := Allow;
      } else if id in lists.blacklist {
        verdict := RejectBlacklisted;
      } else {
        var blocked := IsNodeBlocked(node, now);
        if blocked {
          return RejectBlocked;
        }
        var ok := CheckRateLimit(node, now);
        if ok {
          verdict := Allow;
        } else {
          BlockNode(node, now);
          verdict := RejectRateLimited;
        }
      }
    }

    /** `forward_data(reader, writer, direction)`, with the reads given as
        `input` and the writes returned as `written`. */
    method ForwardData(dir: Direction, input: seq<Arrival>) returns (written: seq<seq<byte>>, ending: Ending)
      requires Valid()
      modifies this
      ensures Valid()
      ensures Relayed(written, table, ending) == Relay(limits, lists, decoder, dir, old(table), input)
    {
      written, ending := [], EndOfStream;
      var i := 0;
      while i < |input|
        invariant 0 <= i <= |input| && Valid()
        invariant Relay(limits, lists, decoder, dir, old(table), input) ==
          Prefixed(written, Relay(limits, lists, decoder, dir, table, input[i..]))
        decreases |input| - i
      {
        var data := input[i].data;
        if data == [] {
          break;
        }
        RelayStep(limits, lists, decoder, dir, table, input, i);
        if dir == RemoteToLocal {
          var verdict := InspectChunk(data, input[i].now);
          if verdict != Allow {
            ending := Rejected(verdict);
            return;
          }
        }
        written := written + [data];
        i := i + 1;
      }
      assert input[i..] == [] || input[i..][0].data == [];
    }
  }
}
