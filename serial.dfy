/** The serial link to one tile, reduced to what the drivers observe: the
    bytes written so far, the bytes the tile has sent that arrive within the
    read deadline, whether the device is gone (every write fails), and the
    outcome of each coming write while it is there (a write can fail on one
    call and go through on the next). */
module Serial {
  import opened Common

  /** What decides the outcome of the next operations on a link: whether
      the device is gone, the outcomes of the coming writes (true: that
      write fails; once the list runs out, writes go through) and the bytes
      waiting to be read. */
  datatype Link = Link(broken: bool, faults: seq<bool>, inbox: seq<Byte>)

  /** Whether the next write on the link goes through. */
  predicate Delivers(l: Link)
  {
    !l.broken && (l.faults == [] || !l.faults[0])
  }

  /** The link after one write attempt, which uses up one outcome. */
  function AfterWrite(l: Link): (next: Link)
    ensures next.broken == l.broken && next.inbox == l.inbox
    ensures l.faults != [] ==> l.faults == [l.faults[0]] + next.faults
    ensures l.faults == [] ==> next.faults == []
  {
    l.(faults := if l.faults == [] then [] else l.faults[1..])
  }

  /** The link after a read of n bytes. */
  function AfterRead(l: Link, n: nat): (next: Link)
    ensures next.broken == l.broken && next.faults == l.faults
    ensures n <= |l.inbox| ==> l.inbox == l.inbox[..n] + next.inbox
    ensures n > |l.inbox| ==> next.inbox == []
  {
    l.(inbox := Remaining(l.inbox, n))
  }

  /** The link after k write attempts. */
  function Writes(l: Link, k: nat): Link
  {
    if k == 0 then l else AfterWrite(Writes(l, k - 1))
  }

  /** Write attempts use up the scripted outcomes one by one, and leave
      the device and the input alone. */
  lemma {:induction false} WritesConsumeFaults(l: Link, k: nat)
    requires k <= |l.faults|
    ensures Writes(l, k) == l.(faults := l.faults[k..])
  {
    if k > 0 {
      WritesConsumeFaults(l, k - 1);
      assert l.faults[k - 1..][1..] == l.faults[k..];
    }
  }

  /** Write number k (counting from 0) goes through exactly when the device
      is there and its scripted outcome is not a fault; past the script,
      every write goes through while the device is there. */
  lemma WriteOutcome(l: Link, k: nat)
    ensures k < |l.faults| ==> (Delivers(Writes(l, k)) <==> !l.broken && !l.faults[k])
    ensures k >= |l.faults| ==> (Delivers(Writes(l, k)) <==> !l.broken)
  {
    if k < |l.faults| {
      WritesConsumeFaults(l, k);
    } else {
      WritesConsumeFaults(l, |l.faults|);
      WritesPastScript(l.(faults := []), k - |l.faults|);
      WritesAdd(l, |l.faults|, k - |l.faults|);
    }
  }

  /** With no outcome left to use up, writes change nothing. */
  lemma {:induction false} WritesPastScript(l: Link, k: nat)
    requires l.faults == []
    ensures Writes(l, k) == l
  {
    if k > 0 {
      WritesPastScript(l, k - 1);
    }
  }

  /** j write attempts followed by k more are j + k attempts. */
  lemma {:induction false} WritesAdd(l: Link, j: nat, k: nat)
    ensures Writes(l, j + k) == Writes(Writes(l, j), k)
  {
    if k > 0 {
      WritesAdd(l, j, k - 1);
    }
  }

  class Port {
    var sent: seq<Byte>
    var inbox: seq<Byte>
    var broken: bool
    var faults: seq<bool>

    constructor (inbox: seq<Byte>, broken: bool, faults: seq<bool>)
      ensures this.sent == [] && State() == Link(broken, faults, inbox)
    {
      this.sent := [];
      this.inbox := inbox;
      this.broken := broken;
      this.faults := faults;
    }

    /** The state of the link that decides what happens next. */
    function State(): Link
      reads this
    {
      Link(broken, faults, inbox)
    }

    /** Writes all of `bytes` when the write goes through, nothing when it
        fails. */
    method Write(bytes: seq<Byte>) returns (ok: bool)
      modifies this
      ensures ok == Delivers(old(State()))
      ensures State() == AfterWrite(old(State()))
      ensures sent == if ok then old(sent) + bytes else old(sent)
    {
      ok := !broken && (faults == [] || !faults[0]);
      if faults != [] {
        faults := faults[1..];
      }
      if ok {
        sent := sent + bytes;
      }
    }

    /** Reads exactly n bytes. When fewer than n arrive in time the read
        fails and the input buffer is cleared. */
    method Read(n: nat) returns (r: Option<seq<Byte>>)
      modifies this
      ensures r.Some? <==> n <= |old(inbox)|
      ensures r.Some? ==> r.value == old(inbox)[..n]
      ensures State() == AfterRead(old(State()), n)
      ensures sent == old(sent)
    {
      if n <= |inbox| {
        r := Some(inbox[..n]);
        inbox := inbox[n..];
      } else {
        r := None;
        inbox := [];
      }
    }
  }

  /** What is left to read after a read of n bytes from `inbox`. */
  function Remaining(inbox: seq<Byte>, n: nat): (rest: seq<Byte>)
    ensures n <= |inbox| ==> inbox == inbox[..n] + rest
    ensures n > |inbox| ==> rest == []
  {
    if n <= |inbox| then inbox[n..] else []
  }
}
