/** zft_overfill_buffers() on the agent: send until nothing more is accepted, keeping a copy of what was. */
module ZftOverfill {
  import opened Basics

  const BUF_SIZE: nat := 1400

  /** One zft_send(): how much it was given, and its result. */
  datatype Sent = Sent(len: nat, rc: int)

  /** A connected zocket and all buffers on the way to its peer, whose reader is not reading. A send
      that succeeds takes at least one byte of the room that is left. */
  class Zocket {
    var room: nat
    var accepted: seq<Byte>
    ghost var sends: seq<Sent>
    ghost var broken: bool         // a call failed in a way that is not expected

    method Send(data: seq<Byte>) returns (rc: int)
      requires data != []
      modifies this
      ensures sends == old(sends) + [Sent(|data|, rc)] && rc != 0 && rc <= |data|
      ensures broken == (old(broken) || (rc < 0 && rc != -EAGAIN))
      ensures if rc < 0 then room == old(room) && accepted == old(accepted)
              else rc <= old(room) && room == old(room) - rc && accepted == old(accepted) + data[..rc]
    {
      rc := *;
      if 0 < rc <= |data| && rc <= room {
        room := room - rc;
        accepted := accepted + data[..rc];
      } else if rc >= 0 {
        rc := -EAGAIN;
      }
      sends := sends + [Sent(|data|, rc)];
      broken := broken || (rc < 0 && rc != -EAGAIN);
    }

    /** zf_process_events() and zf_process_events_long(): bytes only move inside. */
    method ProcessEvents() returns (rc: int)
      modifies this`broken
      ensures broken == (old(broken) || rc < 0)
    {
      rc := *;
      broken := broken || rc < 0;
    }
  }

  /** One round: sends until one finds no room. */
  method Round(z: Zocket) returns (rc: int, sent: bool, dbuf: seq<Byte>)
    requires !z.broken
    modifies z
    ensures rc == if z.broken then -1 else 0
    ensures z.accepted == old(z.accepted) + dbuf && z.room + |dbuf| == old(z.room)
    ensures sent <==> dbuf != []
    ensures old(z.sends) <= z.sends && |z.sends| > |old(z.sends)|
    ensures forall k :: |old(z.sends)| <= k < |z.sends| ==> z.sends[k].len == BUF_SIZE
    ensures rc == 0 ==> z.sends[|z.sends| - 1].rc == -EAGAIN
    ensures rc == 0 ==> if sent then |z.sends| > |old(z.sends)| + 1 else |z.sends| == |old(z.sends)| + 1
    ensures forall k :: |old(z.sends)| <= k < |z.sends| - 1 ==> z.sends[k].rc > 0
  {
    sent, dbuf := false, [];
    while true
      invariant z.accepted == old(z.accepted) + dbuf && z.room + |dbuf| == old(z.room)
      invariant !z.broken && (sent <==> dbuf != [])
      invariant old(z.sends) <= z.sends && if sent then |z.sends| > |old(z.sends)| else z.sends == old(z.sends)
      invariant forall k :: |old(z.sends)| <= k < |z.sends| ==> z.sends[k].len == BUF_SIZE && z.sends[k].rc > 0
      decreases z.room
    {
      var tmp: seq<Byte> :| |tmp| == BUF_SIZE by { assert |seq(BUF_SIZE, _ => 0 as Byte)| == BUF_SIZE; }
      rc := z.Send(tmp);
      if rc < 0 {
        if rc == -EAGAIN {
          return 0, sent, dbuf;
        } else {
          return -1, sent, dbuf;
        }
      }
      dbuf := dbuf + tmp[..rc];
      sent := true;
      rc := z.ProcessEvents();
      if rc < 0 {
        return -1, sent, dbuf;
      }
    }
  }

  /** What was recorded is what was accepted, in order and nothing else, also when the call fails. It
      succeeds only after a whole round that accepted nothing. */
  method OverfillBuffers(z: Zocket) returns (rc: int, buf: seq<Byte>, written: nat)
    requires !z.broken
    modifies z
    ensures rc == if z.broken then -1 else 0
    ensures z.accepted == old(z.accepted) + buf && written == |buf| && z.room + written == old(z.room)
    ensures old(z.sends) <= z.sends
    ensures forall k :: |old(z.sends)| <= k < |z.sends| ==> z.sends[k].len == BUF_SIZE
    ensures rc == 0 ==> |z.sends| > |old(z.sends)| && z.sends[|z.sends| - 1].rc == -EAGAIN
    ensures rc == 0 && |z.sends| > |old(z.sends)| + 1 ==> z.sends[|z.sends| - 2].rc == -EAGAIN
    ensures forall k :: |old(z.sends)| <= k < |z.sends| - 2 ==> z.sends[k].rc > 0 || z.sends[k + 1].rc > 0
  {
    buf, written := [], 0;
    ghost var start := |z.sends|;
    while true
      invariant z.accepted == old(z.accepted) + buf && written == |buf| && z.room + written == old(z.room)
      invariant !z.broken && old(z.sends) <= z.sends
      invariant forall k :: start <= k < |z.sends| ==> z.sends[k].len == BUF_SIZE
      invariant |z.sends| > start ==> z.sends[|z.sends| - 1].rc == -EAGAIN
      invariant forall k :: start <= k < |z.sends| - 1 ==> z.sends[k].rc > 0 || z.sends[k + 1].rc > 0
      decreases z.room
    {
      var sent, dbuf;
      rc, sent, dbuf := Round(z);
      buf := buf + dbuf;
      written := written + |dbuf|;
      if rc != 0 {
        return;
      }
      if !sent {
        return;
      }
      rc := z.ProcessEvents();
      if rc < 0 {
        rc := -1;
        return;
      }
    }
  }
}
