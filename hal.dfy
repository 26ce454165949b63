/**
 * The drivers the bootloader core calls: UART receive and transmit, flash
 * erase and program, the jump to the resident application and the button.
 * Their implementations are not part of this model. Each is a method of
 * `Board` that draws its result from a script given at construction (what
 * the host sends, what the flash reports, the button levels) and records
 * what the core asked for (bytes transmitted, flash operations, the jump).
 */
module Hal {

  type byte = bv8

  /** The result of one UART receive call: UART_OK with the bytes the driver
      stored, or any other status (timeout, framing error). */
  datatype RxResult = RxOk(data: seq<byte>) | RxFail

  /** One call of uart_transmit_ch or uart_transmit_str. */
  datatype TxItem = Ch(b: byte) | Str(s: string)

  /** One call of flash_erase or flash_write, with the result it reported.
      A write records the word count it was given and the bytes at the
      source pointer (`words` 32-bit words of them are programmed). */
  datatype FlashOp =
    | Erase(address: nat, ok: bool)
    | Write(address: nat, words: nat, data: seq<byte>, ok: bool)

  /** The buffer after a receive of `len` bytes that delivered `data`: the
      driver stores at most `len` bytes and leaves the rest as it was. */
  function Fill(old_: seq<byte>, data: seq<byte>, len: nat): (r: seq<byte>)
    requires len <= |old_|
    ensures |r| == |old_|
    ensures forall i :: 0 <= i < |r| ==>
      r[i] == if i < len && i < |data| then data[i] else old_[i]
  {
    seq(|old_|, i requires 0 <= i < |old_| =>
      if i < len && i < |data| then data[i] else old_[i])
  }

  /** The next receive succeeds. */
  predicate ReceiveOk(rx: seq<RxResult>) {
    rx != [] && rx[0].RxOk?
  }

  /** The result the flash reports next: a fault only where the script says so. */
  function NextFlashOk(results: seq<bool>): bool {
    if results == [] then true else results[0]
  }

  function Rest<T>(s: seq<T>): seq<T> {
    if s == [] then [] else s[1..]
  }

  /** Number of erase calls in a flash log. */
  function EraseCount(log: seq<FlashOp>): (n: nat)
    ensures n <= |log|
    ensures n == 0 <==> forall i :: 0 <= i < |log| ==> !log[i].Erase?
  {
    if log == [] then 0
    else EraseCount(log[..|log| - 1]) + (if log[|log| - 1].Erase? then 1 else 0)
  }

  lemma {:induction false} EraseCountAppend(a: seq<FlashOp>, b: seq<FlashOp>)
    ensures EraseCount(a + b) == EraseCount(a) + EraseCount(b)
    decreases |b|
  {
    if b == [] {
      assert a + b == a;
    } else {
      assert (a + b)[..|a + b| - 1] == a + b[..|b| - 1];
      EraseCountAppend(a, b[..|b| - 1]);
    }
  }

  /** What the next uninitialised local buffer of `n` bytes holds: the
      bytes the stack script gives for it, zeros past their end. */
  function StackBytes(stack: seq<seq<byte>>, n: nat): (r: seq<byte>)
    ensures |r| == n
    ensures forall i :: 0 <= i < n ==>
      r[i] == if stack != [] && i < |stack[0]| then stack[0][i] else 0
  {
    seq(n, i requires 0 <= i < n => if stack != [] && i < |stack[0]| then stack[0][i] else 0)
  }

  /** True when some flash operation in the log reported a fault. */
  predicate FlashFaulted(log: seq<FlashOp>) {
    exists i :: 0 <= i < |log| && !log[i].ok
  }

  class Board {
    /** What successive UART receives return; an exhausted script times out. */
    var rx: seq<RxResult>
    /** What successive flash erase/write calls report (true = FLASH_OK). */
    var flashResults: seq<bool>
    /** Successive raw levels read from the button pin. */
    var buttonLevels: seq<bool>
    /** What successive uninitialised local buffers hold when they come
        into scope (C leaves such a buffer with whatever the stack held). */
    var stack: seq<seq<byte>>
    /** Everything transmitted on the UART, in order. */
    var tx: seq<TxItem>
    /** Every flash erase and write, in order. */
    var flashLog: seq<FlashOp>
    /** Set once control has passed to the resident application. */
    var jumped: bool

    constructor (rx: seq<RxResult>, flashResults: seq<bool>, buttonLevels: seq<bool>,
                 stack: seq<seq<byte>>)
      ensures this.rx == rx && this.flashResults == flashResults
      ensures this.buttonLevels == buttonLevels && this.stack == stack
      ensures tx == [] && flashLog == [] && !jumped
    {
      this.rx := rx;
      this.flashResults := flashResults;
      this.buttonLevels := buttonLevels;
      this.stack := stack;
      tx := [];
      flashLog := [];
      jumped := false;
    }

    /** uart_receive / uart_receive_timeout: read `len` bytes into `buf`. */
    method Receive(buf: array<byte>, len: nat) returns (ok: bool)
      requires len <= buf.Length
      modifies this`rx, buf
      ensures ok <==> ReceiveOk(old(rx))
      ensures rx == Rest(old(rx))
      ensures buf[..] == if ok then Fill(old(buf[..]), old(rx)[0].data, len) else old(buf[..])
    {
      if rx == [] {
        return false;
      }
      var r := rx[0];
      rx := rx[1..];
      if r.RxFail? {
        return false;
      }
      ghost var before := buf[..];
      var i := 0;
      while i < len && i < |r.data|
        invariant 0 <= i <= len && i <= |r.data|
        invariant rx == old(rx)[1..]
        invariant forall k :: 0 <= k < buf.Length ==>
          buf[k] == if k < i then r.data[k] else before[k]
      {
        buf[i] := r.data[i];
        i := i + 1;
      }
      assert buf[..] == Fill(before, r.data, len);
      ok := true;
    }

    /** A local byte array of `n` elements without an initialiser. */
    method Local(n: nat) returns (buf: array<byte>)
      modifies this`stack
      ensures fresh(buf) && buf.Length == n
      ensures buf[..] == StackBytes(old(stack), n)
      ensures stack == Rest(old(stack))
    {
      var held := if stack == [] then [] else stack[0];
      buf := new byte[n](i => if 0 <= i < |held| then held[i] else 0);
      stack := Rest(stack);
      assert buf[..] == StackBytes(old(stack), n);
    }

    /** uart_transmit_ch. */
    method TransmitCh(b: byte)
      modifies this`tx
      ensures tx == old(tx) + [Ch(b)]
    {
      tx := tx + [Ch(b)];
    }

    /** uart_transmit_str. */
    method TransmitStr(s: string)
      modifies this`tx
      ensures tx == old(tx) + [Str(s)]
    {
      tx := tx + [Str(s)];
    }

    /** flash_erase. */
    method FlashErase(address: nat) returns (ok: bool)
      modifies this`flashResults, this`flashLog
      ensures ok == NextFlashOk(old(flashResults))
      ensures flashResults == Rest(old(flashResults))
      ensures flashLog == old(flashLog) + [Erase(address, ok)]
    {
      ok := NextFlashOk(flashResults);
      flashResults := Rest(flashResults);
      flashLog := flashLog + [Erase(address, ok)];
    }

    /** flash_write of `words` 32-bit words taken from `data` to `address`. */
    method FlashWrite(address: nat, data: seq<byte>, words: nat) returns (ok: bool)
      modifies this`flashResults, this`flashLog
      ensures ok == NextFlashOk(old(flashResults))
      ensures flashResults == Rest(old(flashResults))
      ensures flashLog == old(flashLog) + [Write(address, words, data, ok)]
    {
      ok := NextFlashOk(flashResults);
      flashResults := Rest(flashResults);
      flashLog := flashLog + [Write(address, words, data, ok)];
    }

    /** flash_jump_to_app: control leaves the bootloader. */
    method JumpToApp()
      modifies this`jumped
      ensures jumped
    {
      jumped := true;
    }

    /** BTN_READ: the raw pin level; an exhausted script reads `idle`. */
    method ReadButton(idle: bool) returns (level: bool)
      modifies this`buttonLevels
      ensures level == if old(buttonLevels) == [] then idle else old(buttonLevels)[0]
      ensures buttonLevels == Rest(old(buttonLevels))
    {
      level := if buttonLevels == [] then idle else buttonLevels[0];
      buttonLevels := Rest(buttonLevels);
    }
  }
}
