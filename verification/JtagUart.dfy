/** The JTAG UART driver: two rings shared, without locks, by the foreground
    routines and the interrupt handler. Preempt() stands between any two
    accesses of the foreground, so every contract here holds for every
    interleaving. */

module Ring {
  /** The ring index `n` slots further on. */
  function Forward(len: nat, i: nat, n: nat): (r: nat)
    requires i < len && i + n <= len
    ensures r == if i + n == len then 0 else i + n
  {
    (i + n) % len
  }

  /** How many slots of a ring of `len` are in use. */
  function Used(len: nat, next_out: nat, next_in: nat): nat
    requires next_out < len && next_in < len
  {
    if next_out <= next_in then next_in - next_out else len - next_out + next_in
  }

  /** The queued elements, oldest first. */
  function Contents<T>(buf: seq<T>, next_out: nat, next_in: nat): (r: seq<T>)
    requires next_out < |buf| && next_in < |buf|
    ensures |r| == Used(|buf|, next_out, next_in)
    ensures r == [] <==> next_in == next_out
  {
    if next_out <= next_in then buf[next_out..next_in] else buf[next_out..] + buf[..next_in]
  }

  predicate Occupied(next_out: nat, next_in: nat, k: nat) {
    if next_out <= next_in then next_out <= k < next_in else next_out <= k || k < next_in
  }

  /** The writer's run of free slots, from a possibly stale `next_out`. */
  function WriterRoom(len: nat, next_in: nat, next_out: nat): (n: nat)
    requires next_out < len && next_in < len
    ensures n + Used(len, next_out, next_in) <= len - 1
    ensures next_in + n <= len
    ensures n == 0 <==> Used(len, next_out, next_in) == len - 1
  {
    if next_in < next_out then next_out - 1 - next_in
    else if next_out > 0 then len - next_in
    else len - 1 - next_in
  }

  /** The reader's run of queued slots. */
  function ReaderRun(len: nat, next_in: nat, next_out: nat): (n: nat)
    requires next_out < len && next_in < len
    ensures n <= Used(len, next_out, next_in)
    ensures next_out + n <= len
    ensures n == 0 <==> Used(len, next_out, next_in) == 0
  {
    if next_in >= next_out then next_in - next_out else len - next_out
  }

  lemma FreeSlotIsNotQueued<T>(buf: seq<T>, next_out: nat, next_in: nat, k: nat, x: T)
    requires next_out < |buf| && next_in < |buf| && k < |buf| && !Occupied(next_out, next_in, k)
    ensures Contents(buf[k := x], next_out, next_in) == Contents(buf, next_out, next_in)
  {
  }

  lemma RunIsFree(len: nat, next_out: nat, next_in: nat, k: nat)
    requires next_out < len && next_in < len
    requires k + Used(len, next_out, next_in) < len - 1 && next_in + k < len
    ensures !Occupied(next_out, next_in, next_in + k)
  {
  }

  lemma Split<T>(buf: seq<T>, i: nat, j: nat, k: nat)
    requires i <= j <= k <= |buf|
    ensures buf[i..k] == buf[i..j] + buf[j..k]
  {
  }

  lemma Associate<T>(a: seq<T>, b: seq<T>, c: seq<T>)
    ensures a + b + c == a + (b + c)
  {
  }

  /** What was queued stays at the front, while a run is taken and more comes in. */
  lemma Follows<T>(was: seq<T>, taken: seq<T>, queue: seq<T>, run: seq<T>, left: seq<T>)
    requires was <= taken + queue && queue <= run + left
    ensures was <= taken + run + left
  {
    assert taken + run + left == taken + (run + left);
    assert taken + queue <= taken + (run + left);
  }

  /** Publishing a run of filled slots queues exactly that run. */
  lemma Publish<T>(buf: seq<T>, next_out: nat, next_in: nat, n: nat)
    requires next_out < |buf| && next_in < |buf|
    requires 0 < n + Used(|buf|, next_out, next_in) <= |buf| - 1 && next_in + n <= |buf|
    ensures Contents(buf, next_out, Forward(|buf|, next_in, n))
         == Contents(buf, next_out, next_in) + buf[next_in..next_in + n]
  {
    var next_in' := Forward(|buf|, next_in, n);
    var run := buf[next_in..next_in + n];
    hide Forward;
    if next_out <= next_in {
      Split(buf, next_out, next_in, next_in + n);
      if next_in' == 0 && next_out > 0 {
        assert buf[next_out..] + buf[..0] == buf[next_out..next_in + n];
      }
    } else {
      assert next_in' == next_in + n < next_out;
      Split(buf, 0, next_in, next_in + n);
      Associate(buf[next_out..], buf[..next_in], run);
    }
  }

  /** Consuming a run removes exactly the oldest elements. */
  lemma Consume<T>(buf: seq<T>, next_out: nat, next_in: nat, n: nat)
    requires next_out < |buf| && next_in < |buf|
    requires n <= Used(|buf|, next_out, next_in) && next_out + n <= |buf|
    ensures Contents(buf, next_out, next_in)
         == buf[next_out..next_out + n] + Contents(buf, Forward(|buf|, next_out, n), next_in)
  {
    var next_out' := Forward(|buf|, next_out, n);
    hide Forward;
    if next_out <= next_in {
      Split(buf, next_out, next_out + n, next_in);
    } else {
      Split(buf, next_out, next_out + n, |buf|);
      if next_out' == 0 {
        assert buf[next_out..] == buf[next_out..next_out + n] && Contents(buf, 0, next_in) == buf[..next_in];
      } else {
        assert buf[next_out..] + buf[..next_in]
            == buf[next_out..next_out + n] + (buf[next_out + n..] + buf[..next_in]);
      }
    }
  }

  lemma RunIsQueued<T>(buf: seq<T>, next_out: nat, next_in: nat, k: nat)
    requires next_out < |buf| && next_in < |buf|
    requires k < Used(|buf|, next_out, next_in) && next_out + k < |buf|
    ensures buf[next_out + k] == Contents(buf, next_out, next_in)[k]
  {
  }
}

module JtagUart {
  import opened Ring
  import opened Words

  const EIO := 5
  const EWOULDBLOCK := 11

  /** The interrupts that the device asks for, before they are masked. */
  datatype Requests = Requests(read: bool, write: bool)

  class Uart {
    const txBuf: array<byte>
    const rxBuf: array<byte>
    var txIn: nat
    var txOut: nat
    var rxIn: nat
    var rxOut: nat
    var readEnable: bool   // the RE bit of irq_enable
    var writeEnable: bool  // the WE bit of irq_enable
    var hostInactive: nat
    const timeout: nat

    // The device: its two FIFOs.
    const fifoSize: nat
    var hwTx: seq<byte>
    var hwRx: seq<byte>
    var requests: Requests

    // What has passed each boundary since initialisation.
    ghost var accepted: seq<byte>   // from callers of Write into the ring
    ghost var sent: seq<byte>       // from the ring to the device
    ghost var collected: seq<byte>  // from the device to the host
    ghost var arrived: seq<byte>    // from the host to the device
    ghost var taken: seq<byte>      // from the device into the ring
    ghost var delivered: seq<byte>  // from the ring to callers of Read

    // The foreground has moved an index and not yet set the enable bit.
    ghost var txPending: bool
    ghost var rxPending: bool

    constructor (len: nat, fifoSize: nat, timeout: nat)
      requires len >= 2
      ensures Valid() && fresh(txBuf) && fresh(rxBuf)
      ensures accepted == sent == collected == arrived == taken == delivered == []
      ensures !txPending && !rxPending && readEnable && !writeEnable
    {
      txBuf, rxBuf := new byte[len], new byte[len];
      txIn, txOut, rxIn, rxOut := 0, 0, 0, 0;
      readEnable, writeEnable := true, false;
      hostInactive := 0;
      this.timeout, this.fifoSize := timeout, fifoSize;
      hwTx, hwRx, requests := [], [], Requests(false, false);
      accepted, sent, collected, arrived, taken, delivered := [], [], [], [], [], [];
      txPending, rxPending := false, false;
    }

    ghost predicate Indexed()
      reads `txIn, `txOut, `rxIn, `rxOut
    {
      && txBuf != rxBuf && txBuf.Length == rxBuf.Length >= 2
      && txIn < txBuf.Length && txOut < txBuf.Length
      && rxIn < rxBuf.Length && rxOut < rxBuf.Length
    }

    ghost function TxQueue(): seq<byte>
      requires txIn < txBuf.Length && txOut < txBuf.Length
      reads `txIn, `txOut, txBuf
    {
      Contents(txBuf[..], txOut, txIn)
    }

    ghost function RxQueue(): seq<byte>
      requires rxIn < rxBuf.Length && rxOut < rxBuf.Length
      reads `rxIn, `rxOut, rxBuf
    {
      Contents(rxBuf[..], rxOut, rxIn)
    }

    /** Nothing is lost, duplicated or reordered in either direction, and
        neither interrupt is off while there is work for it. */
    ghost predicate Valid()
      reads this, txBuf, rxBuf
      ensures Valid() ==> Indexed()
    {
      && Indexed()
      && accepted == sent + TxQueue()
      && sent == collected + hwTx && |hwTx| <= fifoSize
      && taken == delivered + RxQueue()
      && arrived == taken + hwRx
      && (TxQueue() != [] ==> writeEnable || txPending)
      && (!readEnable ==> |RxQueue()| == rxBuf.Length - 1 || rxPending)
    }

    lemma QueueLengths()
      requires Indexed()
      ensures |TxQueue()| == Used(txBuf.Length, txOut, txIn) && |RxQueue()| == Used(rxBuf.Length, rxOut, rxIn)
      ensures |TxQueue()| < txBuf.Length && |RxQueue()| < rxBuf.Length
    {
    }

    // ------------------------------------------------------------ the device

    /** The host may collect and send characters at any time; the one-second
        timer may find it active or not. */
    method HostActs()
      requires Valid()
      modifies `hwTx, `hwRx, `requests, `collected, `arrived, `hostInactive
      ensures Valid() && |hwTx| <= |old(hwTx)|
      ensures old(hwRx) <= hwRx
    {
      hide Contents, TxQueue, RxQueue;
      HostCollects();
      var more: seq<byte> := *;
      arrived := arrived + more;
      hwRx := hwRx + more;
    }

    method HostCollects()
      requires Valid()
      modifies `hwTx, `requests, `collected, `hostInactive
      ensures Valid() && |hwTx| <= |old(hwTx)|
    {
      hide Contents, TxQueue, RxQueue;
      var r: bool, w: bool, active: bool := *, *, *;
      requests := Requests(r, w);
      hostInactive := if active then 0 else hostInactive + 1;
      var n: nat := *;
      if 0 <= n <= |hwTx| {
        collected := collected + hwTx[..n];
        hwTx := hwTx[n..];
      }
    }

    /** A read of the control register: pending bits are masked by the enables,
        a read interrupt means there is a character, a write interrupt space. */
    method ReadControl() returns (ri: bool, wi: bool, wspace: nat)
      requires Valid()
      modifies `hwTx, `hwRx, `requests, `collected, `arrived, `hostInactive
      ensures Valid()
      ensures ri <==> readEnable && requests.read && hwRx != []
      ensures wi <==> writeEnable && requests.write && wspace > 0
      ensures wspace == fifoSize - |hwTx|
    {
      HostActs();
      wspace := fifoSize - |hwTx|;
      ri := requests.read && readEnable && hwRx != [];
      wi := requests.write && writeEnable && wspace > 0;
    }

    /** A read of the data register: the oldest character, whether there was
        one, and how many are left. */
    method ReadData() returns (c: byte, valid: bool, available: nat)
      requires Indexed() && arrived == taken + hwRx
      modifies `hwRx, `taken
      ensures arrived == taken + hwRx && available == |hwRx|
      ensures valid <==> old(hwRx) != []
      ensures valid ==> taken == old(taken) + [c] && hwRx == old(hwRx)[1..]
      ensures !valid ==> taken == old(taken) && hwRx == old(hwRx)
    {
      valid, c := hwRx != [], 0;
      if valid {
        c := hwRx[0];
        taken := taken + [c];
        hwRx := hwRx[1..];
      }
      available := |hwRx|;
    }

    // ------------------------------------------------- the interrupt handler

    method StoreReceived(c: byte)
      requires Indexed() && |RxQueue()| < rxBuf.Length - 1
      modifies `rxIn, rxBuf
      ensures Indexed() && RxQueue() == old(RxQueue()) + [c]
    {
      RunIsFree(rxBuf.Length, rxOut, rxIn, 0);
      FreeSlotIsNotQueued(rxBuf[..], rxOut, rxIn, rxIn, c);
      rxBuf[rxIn] := c;
      assert rxBuf[..] == old(rxBuf[..])[rxIn := c];
      Publish(rxBuf[..], rxOut, rxIn, 1);
      assert rxBuf[rxIn..rxIn + 1] == [c];
      rxIn := Forward(rxBuf.Length, rxIn, 1);
    }

    /** One round of the receive loop: a character from the device, if it has
        one, goes to the end of the ring. */
    method TakeArrived() returns (valid: bool, available: nat)
      requires Valid() && readEnable && |RxQueue()| < rxBuf.Length - 1
      modifies `hwTx, `hwRx, `requests, `collected, `arrived, `hostInactive, `taken, `rxIn, rxBuf
      ensures Valid() && available == |hwRx| && |hwTx| <= |old(hwTx)|
      ensures old(hwRx) != [] ==> valid
      ensures !valid ==> hwRx == []
      ensures old(RxQueue()) <= RxQueue()
      ensures |RxQueue()| == |old(RxQueue())| + if valid then 1 else 0
    {
      hide Contents, TxQueue;
      HostActs();
      var c;
      c, valid, available := ReadData();
      if valid {
        StoreReceived(c);
      }
    }

    /** The receive half of the interrupt handler. */
    method Receive()
      requires Valid() && readEnable && hwRx != []
      modifies `hwTx, `hwRx, `requests, `collected, `arrived, `hostInactive, `taken, `rxIn, `readEnable, rxBuf
      ensures Valid() && old(RxQueue()) <= RxQueue() && |hwTx| <= |old(hwTx)|
      ensures |RxQueue()| > |old(RxQueue())| || !readEnable
      ensures if hwRx == [] then readEnable else !readEnable && |RxQueue()| == rxBuf.Length - 1
    {
      hide Contents, TxQueue;
      var available := 1;
      while true
        invariant Valid() && readEnable && old(RxQueue()) <= RxQueue() && |hwTx| <= |old(hwTx)|
        invariant |RxQueue()| > |old(RxQueue())| || available > 0
        invariant available > 0 <==> hwRx != []
        decreases rxBuf.Length - |RxQueue()|
      {
        QueueLengths();
        var next := Forward(rxBuf.Length, rxIn, 1);
        if next == rxOut {
          break;
        }
        var valid;
        valid, available := TakeArrived();
        if !valid {
          break;
        }
      }
      if available > 0 {
        readEnable := false;
      }
    }

    method TakeForDevice() returns (c: byte)
      requires Indexed() && TxQueue() != []
      modifies `txOut
      ensures Indexed() && old(TxQueue()) == [c] + TxQueue()
    {
      c := txBuf[txOut];
      Consume(txBuf[..], txOut, txIn, 1);
      assert txBuf[txOut..txOut + 1] == [c];
      txOut := Forward(txBuf.Length, txOut, 1);
    }

    /** One round of the transmit loop: the oldest character goes to the device. */
    method SendOne()
      requires Valid() && TxQueue() != [] && |hwTx| < fifoSize
      modifies `hwTx, `hwRx, `requests, `collected, `arrived, `hostInactive, `sent, `txOut
      ensures Valid() && |hwTx| <= |old(hwTx)| + 1
      ensures sent == old(sent) + [old(TxQueue())[0]] && TxQueue() == old(TxQueue())[1..]
    {
      hide Contents, RxQueue;
      var c := TakeForDevice();
      sent := sent + [c];
      hwTx := hwTx + [c];
      HostActs();
    }

    /** The transmit half of the interrupt handler. */
    method Transmit(wspace: nat)
      requires Valid() && writeEnable && 0 < wspace <= fifoSize - |hwTx|
      modifies `hwTx, `hwRx, `requests, `collected, `arrived, `hostInactive, `sent, `txOut, `writeEnable
      ensures Valid() && old(sent) <= sent && |TxQueue()| <= |old(TxQueue())|
      ensures |TxQueue()| < |old(TxQueue())| || !writeEnable
      ensures var n := if wspace < |old(TxQueue())| then wspace else |old(TxQueue())|;
              sent == old(sent) + old(TxQueue())[..n] && TxQueue() == old(TxQueue())[n..]
      ensures writeEnable <==> wspace <= |old(TxQueue())|
    {
      hide Contents, RxQueue, TxQueue;
      var space := wspace;
      while space > 0 && txOut != txIn
        invariant Valid() && writeEnable && space <= fifoSize - |hwTx|
        invariant old(sent) <= sent && |TxQueue()| <= |old(TxQueue())|
        invariant |TxQueue()| < |old(TxQueue())| || space == wspace
        invariant 0 <= space <= wspace <= space + |old(TxQueue())|
        invariant sent == old(sent) + old(TxQueue())[..wspace - space]
        invariant TxQueue() == old(TxQueue())[wspace - space..]
        decreases space
      {
        QueueLengths();
        SendOne();
        space := space - 1;
      }
      QueueLengths();
      if space > 0 {
        writeEnable := false;
      }
    }

    /** altera_avalon_jtag_uart_irq. It goes on until the device asks for nothing,
        which cannot take for ever: each turn empties the transmit ring, fills the
        receive ring or turns an enable off. */
    method Irq()
      requires Valid()
      modifies `hwTx, `hwRx, `requests, `collected, `arrived, `hostInactive,
               `taken, `rxIn, `readEnable, rxBuf, `sent, `txOut, `writeEnable
      ensures Valid() && old(sent) <= sent && |TxQueue()| <= |old(TxQueue())| && old(RxQueue()) <= RxQueue()
      ensures !(readEnable && requests.read && hwRx != []) && !(writeEnable && requests.write && |hwTx| < fifoSize)
    {
      hide Contents, Valid, TxQueue, RxQueue;
      while true
        invariant Valid() && old(sent) <= sent
        invariant |TxQueue()| <= |old(TxQueue())| && old(RxQueue()) <= RxQueue()
        decreases |TxQueue()| + (rxBuf.Length - |RxQueue()|)
                  + (if readEnable then 1 else 0) + (if writeEnable then 1 else 0)
      {
        var ri, wi, wspace := ReadControl();
        if !ri && !wi {
          break;
        }
        if ri {
          Receive();
        }
        if wi {
          Transmit(wspace);
        }
        QueueLengths();
      }
    }

    // ---------------------------------------------------- the foreground

    /** Any number of interrupts and host actions, at any point of the
        foreground. The frame and the last line are what it may rely on. */
    method Preempt()
      requires Valid()
      modifies `hwTx, `hwRx, `requests, `collected, `arrived, `hostInactive,
               `taken, `rxIn, `readEnable, rxBuf, `sent, `txOut, `writeEnable
      ensures Valid() && old(sent) <= sent && |TxQueue()| <= |old(TxQueue())| && old(RxQueue()) <= RxQueue()
    {
      hide Contents, Valid, TxQueue, RxQueue;
      var n: nat := *;
      while n > 0
        invariant Valid() && old(sent) <= sent
        invariant |TxQueue()| <= |old(TxQueue())| && old(RxQueue()) <= RxQueue()
      {
        var host: bool := *;
        if host {
          HostActs();
        } else {
          Irq();
        }
        n := n - 1;
      }
    }

    /** One byte of the writer's memcpy: the slot is not one the handler can read. */
    method PutByte(k: nat, c: byte)
      requires Valid() && k + |TxQueue()| < txBuf.Length - 1 && txIn + k < txBuf.Length
      modifies txBuf
      ensures Valid() && TxQueue() == old(TxQueue())
      ensures txBuf[..] == old(txBuf[..])[txIn + k := c]
    {
      RunIsFree(txBuf.Length, txOut, txIn, k);
      FreeSlotIsNotQueued(txBuf[..], txOut, txIn, txIn + k, c);
      hide Contents;
      txBuf[txIn + k] := c;
      assert txBuf[..] == old(txBuf[..])[txIn + k := c];
    }

    /** The single store that makes a run of filled slots visible to the handler. */
    method MoveTxIn(n: nat)
      requires Valid() && 0 < n && n + |TxQueue()| <= txBuf.Length - 1 && txIn + n <= txBuf.Length
      modifies `txIn, `accepted, `txPending
      ensures Valid() && txPending && accepted == old(accepted) + old(txBuf[txIn..txIn + n])
      ensures |TxQueue()| == |old(TxQueue())| + n
    {
      Publish(txBuf[..], txOut, txIn, n);
      hide Contents;
      accepted := accepted + txBuf[txIn..txIn + n];
      assert txBuf[txIn..txIn + n] == txBuf[..][txIn..txIn + n];
      txIn := Forward(txBuf.Length, txIn, n);
      txPending := true;
    }

    /** memcpy into the ring and the move of tx_in, interrupted anywhere. */
    method CopyIn(data: seq<byte>)
      requires Valid() && 0 < |data|
      requires |data| + |TxQueue()| <= txBuf.Length - 1 && txIn + |data| <= txBuf.Length
      modifies `hwTx, `hwRx, `requests, `collected, `arrived, `hostInactive, `taken, `rxIn, `readEnable, rxBuf,
               `sent, `txOut, `writeEnable, txBuf, `txIn, `accepted, `txPending
      ensures Valid() && accepted == old(accepted) + data
      ensures |TxQueue()| <= |old(TxQueue())| + |data|
    {
      hide Contents, Valid, TxQueue, RxQueue;
      var k := 0;
      while k < |data|
        invariant 0 <= k <= |data| && Valid() && txIn == old(txIn)
        invariant |data| + |TxQueue()| <= txBuf.Length - 1
        invariant txBuf[txIn..txIn + k] == data[..k]
        invariant accepted == old(accepted) && |TxQueue()| <= |old(TxQueue())|
      {
        PutByte(k, data[k]);
        assert txBuf[txIn..txIn + k + 1] == data[..k + 1];
        Preempt();
        k := k + 1;
      }
      MoveTxIn(|data|);
    }

    /** Copies until the data or, as last seen, the room runs out. */
    method Fill(data: seq<byte>) returns (n: nat, out: nat)
      requires Valid()
      modifies `hwTx, `hwRx, `requests, `collected, `arrived, `hostInactive, `taken, `rxIn, `readEnable, rxBuf,
               `sent, `txOut, `writeEnable, txBuf, `txIn, `accepted, `txPending
      ensures Valid() && n <= |data| && accepted == old(accepted) + data[..n]
      ensures n < |data| ==> out < txBuf.Length && Used(txBuf.Length, out, txIn) == txBuf.Length - 1
      ensures n == |data| || n + |old(TxQueue())| >= txBuf.Length - 1
      ensures |TxQueue()| <= |old(TxQueue())| + n
    {
      hide Contents, Valid, TxQueue, RxQueue;
      n, out := 0, 0;
      while n < |data|
        invariant Valid() && n <= |data| && accepted == old(accepted) + data[..n]
        invariant |TxQueue()| <= |old(TxQueue())| + n
        decreases |data| - n
      {
        var next_in := txIn;
        Preempt();
        out := txOut;
        QueueLengths();
        Preempt();
        var run := WriterRoom(txBuf.Length, next_in, out);
        if run == 0 {
          break;
        }
        if run > |data| - n {
          run := |data| - n;
        }
        CopyIn(data[n..n + run]);
        Split(data, 0, n, n + run);
        n := n + run;
      }
    }

    /** The foreground's critical section: interrupts are off, so one step. */
    method EnableTransmit()
      requires Valid()
      modifies `writeEnable, `txPending
      ensures Valid() && !txPending && writeEnable
    {
      writeEnable := true;
      txPending := false;
    }

    /** The writer's turn with the ring: copy, then turn transmission on. */
    method FillAndEnable(data: seq<byte>) returns (n: nat, out: nat)
      requires Valid()
      modifies `hwTx, `hwRx, `requests, `collected, `arrived, `hostInactive, `taken, `rxIn, `readEnable, rxBuf,
               `sent, `txOut, `writeEnable, txBuf, `txIn, `accepted, `txPending
      ensures Valid() && !txPending && n <= |data| && accepted == old(accepted) + data[..n]
      ensures n < |data| ==> out < txBuf.Length && Used(txBuf.Length, out, txIn) == txBuf.Length - 1
      ensures n == |data| || n + |old(TxQueue())| >= txBuf.Length - 1
      ensures |TxQueue()| <= |old(TxQueue())| + n
    {
      hide Contents, Valid, TxQueue, RxQueue;
      n, out := Fill(data);
      Preempt();
      EnableTransmit();
    }

    /** Polls until the handler has taken something or the host looks dead. The
        loop waits on hardware; `patience` bounds how much of the wait is seen. */
    method AwaitDrain(out: nat, patience: nat) returns (left: nat, waiting: bool)
      requires Valid() && !txPending
      modifies `hwTx, `hwRx, `requests, `collected, `arrived, `hostInactive, `taken, `rxIn, `readEnable, rxBuf,
               `sent, `txOut, `writeEnable
      ensures Valid() && left <= patience && |TxQueue()| <= |old(TxQueue())|
      ensures !waiting ==> out != txOut || hostInactive >= timeout
    {
      left, waiting := patience, false;
      while out == txOut && hostInactive < timeout
        invariant Valid() && left <= patience && |TxQueue()| <= |old(TxQueue())|
        decreases left
      {
        if left == 0 {
          waiting := true;
          break;
        }
        left := left - 1;
        Preempt();
      }
    }

    /** One turn, with what is left of `data` after `count` bytes. */
    method Offer(data: seq<byte>, count: nat, ghost before: seq<byte>) returns (count': nat, out: nat)
      requires Valid() && count <= |data| && accepted == before + data[..count]
      modifies `hwTx, `hwRx, `requests, `collected, `arrived, `hostInactive, `taken, `rxIn, `readEnable, rxBuf,
               `sent, `txOut, `writeEnable, txBuf, `txIn, `accepted, `txPending
      ensures Valid() && !txPending && count <= count' <= |data| && accepted == before + data[..count']
      ensures count' == |data| || count' - count + |old(TxQueue())| >= txBuf.Length - 1
      ensures |TxQueue()| <= |old(TxQueue())| + count' - count
    {
      hide Contents, Valid, TxQueue, RxQueue;
      var n;
      n, out := FillAndEnable(data[count..]);
      Split(data, 0, count, count + n);
      assert data[count..][..n] == data[count..count + n];
      count' := count + n;
      Preempt();
    }

    /** altera_avalon_jtag_uart_write. `waiting` is true when the call is still
        polling after `patience` polls; everything else holds at that moment too. */
    method Write(data: seq<byte>, nonblock: bool, patience: nat) returns (rc: int, waiting: bool)
      requires Valid() && !txPending
      modifies `hwTx, `hwRx, `requests, `collected, `arrived, `hostInactive, `taken, `rxIn, `readEnable, rxBuf,
               `sent, `txOut, `writeEnable, txBuf, `txIn, `accepted, `txPending
      ensures Valid() && !txPending
      ensures rc <= |data| && accepted == old(accepted) + data[..if rc > 0 then rc else 0]
      ensures rc <= 0 && !waiting ==> rc == if nonblock then -EWOULDBLOCK else -EIO
      ensures rc < |data| && data != [] && !waiting ==> nonblock || hostInactive > 0
      ensures nonblock || data == [] ==> !waiting
      ensures !waiting ==> (rc < 0 <==> accepted == old(accepted))
      ensures var n := if rc > 0 then rc else 0; n == |data| || n + |old(TxQueue())| >= txBuf.Length - 1
    {
      hide Contents, Valid, TxQueue, RxQueue;
      var count: nat, left: nat := 0, patience;
      waiting := false;
      while true
        invariant Valid() && !txPending && count <= |data| && accepted == old(accepted) + data[..count]
        invariant !waiting && left <= patience
        invariant nonblock || data == [] ==> count == 0
        invariant |TxQueue()| <= |old(TxQueue())| + count
        decreases left
      {
        var out;
        count, out := Offer(data, count, old(accepted));
        if count == |data| || nonblock {
          break;
        }
        left, waiting := AwaitDrain(out, left);
        Preempt();
        if !waiting && hostInactive > 0 {
          break;
        }
        if waiting || left == 0 {
          waiting := true;
          break;
        }
        left := left - 1;
      }
      rc := Reported(count, nonblock, waiting);
    }

    static method Reported(count: nat, nonblock: bool, waiting: bool) returns (rc: int)
      ensures count == if rc > 0 then rc else 0
      ensures rc < 0 <==> count == 0 && !waiting
      ensures rc < 0 ==> rc == if nonblock then -EWOULDBLOCK else -EIO
    {
      if waiting || count > 0 {
        rc := count;
      } else if nonblock {
        rc := -EWOULDBLOCK;
      } else {
        rc := -EIO;
      }
    }

    /** The store that hands a run of slots back to the handler. */
    method MoveRxOut(n: nat)
      requires Valid() && 0 < n <= |RxQueue()| && rxOut + n <= rxBuf.Length
      modifies `rxOut, `delivered, `rxPending
      ensures Valid() && rxPending && delivered == old(delivered) + old(RxQueue())[..n]
      ensures RxQueue() == old(RxQueue())[n..]
    {
      Consume(rxBuf[..], rxOut, rxIn, n);
      delivered := delivered + rxBuf[rxOut..rxOut + n];
      assert rxBuf[rxOut..rxOut + n] == rxBuf[..][rxOut..rxOut + n];
      rxOut := Forward(rxBuf.Length, rxOut, n);
      rxPending := true;
    }

    /** memcpy out of the ring and the move of rx_out, interrupted anywhere. */
    method CopyOut(n: nat) returns (run: seq<byte>)
      requires Valid() && 0 < n <= |RxQueue()| && rxOut + n <= rxBuf.Length
      modifies `hwTx, `hwRx, `requests, `collected, `arrived, `hostInactive, `taken, `rxIn, `readEnable, rxBuf,
               `sent, `txOut, `writeEnable, `rxOut, `delivered, `rxPending
      ensures Valid() && rxPending && |run| == n && delivered == old(delivered) + run
      ensures old(RxQueue()) <= run + RxQueue()
    {
      hide Contents, Valid, RxQueue, TxQueue;
      run := [];
      while |run| < n
        invariant Valid() && |run| <= n && rxOut == old(rxOut) && delivered == old(delivered)
        invariant old(RxQueue()) <= RxQueue() && run == old(RxQueue())[..|run|]
        decreases n - |run|
      {
        QueuedAt(|run|);
        run := run + [rxBuf[rxOut + |run|]];
        Preempt();
      }
      MoveRxOut(n);
    }

    lemma QueuedAt(k: nat)
      requires Indexed() && k < |RxQueue()| && rxOut + k < rxBuf.Length
      ensures rxBuf[rxOut + k] == RxQueue()[k]
    {
      RunIsQueued(rxBuf[..], rxOut, rxIn, k);
    }

    /** Reads until `space` is used up or the ring is seen empty. */
    method Drain(space: nat) returns (data: seq<byte>, seen: nat)
      requires Valid() && space > 0
      modifies `hwTx, `hwRx, `requests, `collected, `arrived, `hostInactive, `taken, `rxIn, `readEnable, rxBuf,
               `sent, `txOut, `writeEnable, `rxOut, `delivered, `rxPending
      ensures Valid() && |data| <= space && delivered == old(delivered) + data
      ensures data == [] ==> rxPending == old(rxPending) && rxOut == old(rxOut) == seen
      ensures |data| < space ==> seen == rxOut
      ensures old(RxQueue()) <= data || (|data| == space && data <= old(RxQueue()))
    {
      hide Contents, Valid, RxQueue, TxQueue;
      data, seen := [], 0;
      while true
        invariant Valid() && |data| < space && delivered == old(delivered) + data
        invariant data == [] ==> rxPending == old(rxPending) && rxOut == old(rxOut)
        invariant old(RxQueue()) <= data + RxQueue()
        decreases space - |data|
      {
        QueueLengths();
        seen := rxIn;
        ghost var queue := RxQueue();
        Preempt();
        Follows(old(RxQueue()), data, queue, [], RxQueue());
        var n := ReaderRun(rxBuf.Length, seen, rxOut);
        if n == 0 {
          assert data + queue == data;
          break;
        }
        if n > space - |data| {
          n := space - |data|;
        }
        queue := RxQueue();
        var run := CopyOut(n);
        Follows(old(RxQueue()), data, queue, run, RxQueue());
        data := data + run;
        if |data| == space {
          break;
        }
      }
    }

    method EnableReceive()
      requires Valid()
      modifies `readEnable, `rxPending
      ensures Valid() && !rxPending && readEnable
    {
      readEnable := true;
      rxPending := false;
    }

    method AwaitArrival(seen: nat, patience: nat) returns (left: nat, waiting: bool)
      requires Valid() && !rxPending
      modifies `hwTx, `hwRx, `requests, `collected, `arrived, `hostInactive, `taken, `rxIn, `readEnable, rxBuf,
               `sent, `txOut, `writeEnable
      ensures Valid() && left <= patience
      ensures !waiting ==> seen != rxIn || hostInactive >= timeout
    {
      left, waiting := patience, false;
      while seen == rxIn && hostInactive < timeout
        invariant Valid() && left <= patience
        decreases left
      {
        if left == 0 {
          waiting := true;
          break;
        }
        left := left - 1;
        Preempt();
      }
    }

    /** altera_avalon_jtag_uart_read. */
    method Read(space: nat, nonblock: bool, patience: nat)
      returns (data: seq<byte>, rc: int, waiting: bool)
      requires Valid() && !rxPending
      modifies `hwTx, `hwRx, `requests, `collected, `arrived, `hostInactive, `taken, `rxIn, `readEnable, rxBuf,
               `sent, `txOut, `writeEnable, `rxOut, `delivered, `rxPending
      ensures Valid() && !rxPending
      ensures |data| <= space && delivered == old(delivered) + data
      ensures rc == if data != [] then |data| else if nonblock then -EWOULDBLOCK else -EIO
      ensures data == [] && space > 0 && !waiting ==> nonblock || hostInactive >= timeout
      ensures nonblock ==> !waiting
      ensures data != [] ==> readEnable
      ensures old(RxQueue()) <= data || (|data| == space && data <= old(RxQueue()))
    {
      hide Contents, Valid, RxQueue, TxQueue;
      var left: nat := patience;
      data, waiting := [], false;
      while space > 0
        invariant Valid() && !rxPending && data == [] && delivered == old(delivered)
        invariant !waiting && old(RxQueue()) <= RxQueue()
        invariant left < patience ==> old(RxQueue()) == []
        invariant left <= patience
        decreases left
      {
        var seen;
        data, seen := Drain(space);
        if data != [] || nonblock {
          break;
        }
        left, waiting := AwaitArrival(seen, left);
        if !waiting && seen == rxIn {
          break;
        }
        if waiting || left == 0 {
          waiting := true;
          break;
        }
        left := left - 1;
      }
      if data != [] {
        Preempt();
        EnableReceive();
      }
      rc := if data != [] then |data| else if nonblock then -EWOULDBLOCK else -EIO;
    }
  }
}
