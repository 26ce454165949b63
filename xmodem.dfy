/**
 * The XMODEM-CRC receiver of xmodem.c. The three statics of the file (the
 * expected packet number, the flash cursor and the first-packet flag) are
 * the fields of `Receiver`; xmodem_handle_packet, xmodem_error_handler and
 * xmodem_receive are its methods. xmodem_handle_packet is split into
 * `ReadFrame`, `CheckFrame` and `Commit`; the body of the loop of
 * xmodem_receive into `AwaitHeader`, `DataFrame` and `OtherHeader`, with
 * `Round` keeping the loop's invariant `InSession`; `ReceiveSession` is the
 * loop.
 *
 * The flash log a session leaves behind is described by the functions
 * below: `Image` is what the successful writes programmed, `Cursor` is
 * where the next write goes, and a session's log keeps every write at the
 * cursor, erases at most once while the image fits in the address space,
 * starts with the erase and ends at the first fault.
 */
module Xmodem {
  import opened Hal
  import opened XmodemCrc
  import opened XmodemPacket

  /** First address of the resident application in flash. */
  const FLASH_APP_START_ADDRESS: nat := 0x0800_4000
  /** uint32_t address arithmetic wraps here. */
  const ADDRESS_SPACE: nat := 0x1_0000_0000
  /** Rejections in one session before the receiver gives up. */
  const X_MAX_ERRORS: bv8 := 3

  const MSG_UPDATED: string := "\n\rFirmware updated!\n\r"
  const MSG_JUMPING: string := "Jumping to user application...\n\r"

  /** Why a session returned: the image was completed and control passed to
      the application, the host cancelled, the receiver gave up (too many
      rejections or a flash fault), or the host's script ran out while the
      receiver was still waiting. */
  datatype SessionEnd = Completed | Cancelled | GaveUp | Waiting

  predicate EndsWith<T(==)>(s: seq<T>, t: seq<T>) {
    |t| <= |s| && s[|s| - |t|..] == t
  }

  // ---------------------------------------------------------------------
  // The flash log of a session

  /** The bytes programmed by the successful writes of a log, in order. */
  function Image(log: seq<FlashOp>): seq<byte> {
    if log == [] then []
    else
      var op := log[|log| - 1];
      Image(log[..|log| - 1]) + (if op.Write? && op.ok then op.data else [])
  }

  /** Where the next write goes after `log`: the application start advanced
      by the bytes written so far, in 32-bit address arithmetic. */
  function Cursor(log: seq<FlashOp>): (a: nat)
    ensures a < ADDRESS_SPACE
  {
    (FLASH_APP_START_ADDRESS + |Image(log)|) % ADDRESS_SPACE
  }

  /** An erase targets the application start; a write goes to the cursor
      left by the operations before it and programs all of its bytes. */
  predicate Placed(op: FlashOp, before: seq<FlashOp>) {
    match op
    case Erase(a, _) => a == FLASH_APP_START_ADDRESS
    case Write(a, w, d, _) => a == Cursor(before) && w * 4 == |d|
  }

  predicate InSequence(log: seq<FlashOp>) {
    forall i :: 0 <= i < |log| ==> Placed(log[i], log[..i])
  }

  /** Nothing follows a faulted operation. */
  predicate FaultIsLast(log: seq<FlashOp>) {
    forall i :: 0 <= i < |log| - 1 ==> log[i].ok
  }

  predicate AllOk(ops: seq<FlashOp>) {
    forall i :: 0 <= i < |ops| ==> ops[i].ok
  }

  /** The flash operations for a frame that passed every check: an erase of
      the application area when the cursor is at its start, then the write
      of the payload unless that erase failed. */
  function CommitOps(cursor: nat, payload: seq<byte>, results: seq<bool>): (ops: seq<FlashOp>)
    ensures 1 <= |ops| <= 2
    ensures ops[0].Erase? <==> cursor == FLASH_APP_START_ADDRESS
    ensures |ops| == 2 <==> cursor == FLASH_APP_START_ADDRESS && NextFlashOk(results)
    ensures forall i :: 0 <= i < |ops| && ops[i].Write? ==>
      ops[i].address == cursor && ops[i].data == payload && ops[i].words == |payload| / 4
  {
    if cursor == FLASH_APP_START_ADDRESS then
      if NextFlashOk(results) then
        [Erase(FLASH_APP_START_ADDRESS, true),
         Write(cursor, |payload| / 4, payload, NextFlashOk(Rest(results)))]
      else [Erase(FLASH_APP_START_ADDRESS, false)]
    else [Write(cursor, |payload| / 4, payload, NextFlashOk(results))]
  }

  /** When the operations of `CommitOps` all succeed. */
  lemma CommitOpsOk(cursor: nat, payload: seq<byte>, results: seq<bool>)
    ensures AllOk(CommitOps(cursor, payload, results)) <==>
      if cursor == FLASH_APP_START_ADDRESS then NextFlashOk(results) && NextFlashOk(Rest(results))
      else NextFlashOk(results)
  {
    var ops := CommitOps(cursor, payload, results);
    if cursor == FLASH_APP_START_ADDRESS && NextFlashOk(results) {
      assert ops[0].ok && (ops[1].ok <==> NextFlashOk(Rest(results)));
    } else {
      assert ops[0].ok <==> NextFlashOk(results);
    }
  }

  /** The cursor is back at the application start only after a multiple of
      2^32 bytes. */
  lemma CursorAtStart(written: nat)
    requires written < ADDRESS_SPACE
    ensures (FLASH_APP_START_ADDRESS + written) % ADDRESS_SPACE == FLASH_APP_START_ADDRESS
        <==> written == 0
  {
    if FLASH_APP_START_ADDRESS + written >= ADDRESS_SPACE {
      assert (FLASH_APP_START_ADDRESS + written) % ADDRESS_SPACE
          == FLASH_APP_START_ADDRESS + written - ADDRESS_SPACE;
    }
  }

  /** The cursor stays on a 128-byte boundary, so every write is
      word-aligned: the application start is on one, every accepted payload
      is a whole number of 128-byte blocks, and 2^32 is a multiple of 128. */
  lemma CursorAligned(accepted: nat)
    requires accepted % PACKET_128_SIZE == 0
    ensures (FLASH_APP_START_ADDRESS + accepted) % ADDRESS_SPACE % PACKET_128_SIZE == 0
  {
    var a := FLASH_APP_START_ADDRESS + accepted;
    var q := a / ADDRESS_SPACE;
    var r := a % ADDRESS_SPACE;
    var k := accepted / PACKET_128_SIZE;
    assert accepted == k * PACKET_128_SIZE;
    assert a == q * ADDRESS_SPACE + r;
    var m := 0x10_0080 + k - q * 0x200_0000;
    assert r == m * PACKET_128_SIZE;
    ModOf(m, 0, PACKET_128_SIZE);
  }

  /** One more operation at the end of a log: what it adds to the image
      and to the erase count. */
  lemma SnocImage(log: seq<FlashOp>, op: FlashOp)
    ensures Image(log + [op]) == Image(log) + (if op.Write? && op.ok then op.data else [])
    ensures EraseCount(log + [op]) == EraseCount(log) + (if op.Erase? then 1 else 0)
  {
    assert (log + [op])[..|log|] == log;
  }

  /** An operation placed at the end of a log in sequence keeps it so. */
  lemma SnocInSequence(log: seq<FlashOp>, op: FlashOp)
    requires InSequence(log) && Placed(op, log)
    ensures InSequence(log + [op])
  {
    var all := log + [op];
    forall i | 0 <= i < |all|
      ensures Placed(all[i], all[..i])
    {
      if i < |log| {
        assert all[..i] == log[..i];
      } else {
        assert all[..i] == log;
      }
    }
  }

  /** After a log without faults, one more operation is faulted or not. */
  lemma SnocFault(log: seq<FlashOp>, op: FlashOp)
    requires AllOk(log)
    ensures FaultIsLast(log + [op])
    ensures FlashFaulted(log + [op]) <==> !op.ok
    ensures op.ok ==> AllOk(log + [op])
  {
    var all := log + [op];
    assert forall i :: 0 <= i < |log| ==> all[i] == log[i];
    assert all[|log|] == op;
  }

  /** Appending the operations of an accepted frame at the cursor keeps the
      log in sequence, adds the payload to the image when every operation
      succeeded, erases exactly when the cursor was at the start, and
      leaves a fault, if any, last. */
  lemma CommitKeepsSequence(log: seq<FlashOp>, payload: seq<byte>, results: seq<bool>)
    requires InSequence(log) && AllOk(log)
    requires |payload| % 4 == 0
    ensures var ops := CommitOps(Cursor(log), payload, results);
      && InSequence(log + ops)
      && FaultIsLast(log + ops)
      && Image(log + ops) == Image(log) + (if AllOk(ops) then payload else [])
      && EraseCount(log + ops)
         == EraseCount(log) + (if Cursor(log) == FLASH_APP_START_ADDRESS then 1 else 0)
      && (FlashFaulted(log + ops) <==> !AllOk(ops))
  {
    var cursor := Cursor(log);
    var ops := CommitOps(cursor, payload, results);
    CommitOpsOk(cursor, payload, results);
    assert |payload| / 4 * 4 == |payload|;
    if cursor == FLASH_APP_START_ADDRESS && NextFlashOk(results) {
      EraseThenWrite(log, ops[0], ops[1]);
      EraseThenWriteEffects(log, ops[0], ops[1]);
      assert log + ops == log + [ops[0]] + [ops[1]];
    } else {
      SnocImage(log, ops[0]);
      SnocInSequence(log, ops[0]);
      SnocFault(log, ops[0]);
      assert log + ops == log + [ops[0]];
    }
  }

  /** A successful erase followed by a write at the cursor: the log stays
      in sequence. */
  lemma EraseThenWrite(log: seq<FlashOp>, e: FlashOp, w: FlashOp)
    requires InSequence(log)
    requires e.Erase? && Placed(e, log)
    requires w.Write? && Placed(w, log)
    ensures InSequence(log + [e] + [w])
  {
    SnocInSequence(log, e);
    SnocImage(log, e);
    assert Cursor(log + [e]) == Cursor(log);
    SnocInSequence(log + [e], w);
  }

  /** A successful erase followed by a write: the image, the erase count and
      the faults. */
  lemma EraseThenWriteEffects(log: seq<FlashOp>, e: FlashOp, w: FlashOp)
    requires AllOk(log)
    requires e.Erase? && e.ok && w.Write?
    ensures FaultIsLast(log + [e] + [w])
    ensures Image(log + [e] + [w]) == Image(log) + (if w.ok then w.data else [])
    ensures EraseCount(log + [e] + [w]) == EraseCount(log) + 1
    ensures FlashFaulted(log + [e] + [w]) <==> !w.ok
  {
    SnocImage(log, e);
    SnocFault(log, e);
    SnocImage(log + [e], w);
    SnocFault(log + [e], w);
  }

  /** Packet numbers count modulo 256, as a uint8_t does. */
  lemma NumberWraps(x: byte, k: nat)
    requires x as int == k % 256
    ensures (x + 1) as int == (k + 1) % 256
  {
    var q := k / 256;
    assert k == q * 256 + x as int;
    if x == 0xFF {
      ModOf(q + 1, 0, 256);
      assert k + 1 == (q + 1) * 256 + 0;
    } else {
      ModOf(q, x as int + 1, 256);
      assert (x + 1) as int == x as int + 1;
    }
  }

  /** The remainder of `q * m + r` is `r` when `r` is a remainder. */
  lemma ModOf(q: int, r: int, m: int)
    requires m > 0 && 0 <= r < m
    ensures (q * m + r) % m == r
  {
    var a := q * m + r;
    var d := q - a / m;
    assert d * m == a % m - r;
    MulBelow(d, m);
  }

  /** The only multiple of `m` strictly between `-m` and `m` is 0. */
  lemma MulBelow(d: int, m: int)
    requires m > 0 && -m < d * m < m
    ensures d == 0
  {
  }

  /** The packet number after `n`: uint8_t arithmetic wraps 255 to 0. */
  function NextNumber(n: byte): byte {
    n + 1
  }

  /** The receiver's expected `number` and cursor `address` agree with the
      `bytes` and `packets` it accepted: the cursor is the application start
      advanced by the bytes, which come in whole 128-byte blocks, and the
      number is one more than the packets, modulo 256. */
  predicate Consistent(number: byte, address: nat, bytes: nat, packets: nat) {
    && address == (FLASH_APP_START_ADDRESS + bytes) % ADDRESS_SPACE
    && bytes % PACKET_128_SIZE == 0
    && number as int == (1 + packets) % 256
  }

  /** The statics of xmodem.c (the expected packet number, the flash cursor,
      the first-packet flag) with the bytes and frames accepted so far, two
      counts the firmware does not keep. */
  datatype Statics = Statics(number: byte, cursor: nat, first: bool, bytes: nat, packets: nat)

  /** What committing `payload` does, from the statics `before`, the flash
      results `results` and the flash log `log`, to the statics `after`, the
      log `log'` and the results `results'`: the log is extended by the
      operations of `CommitOps` and the results they consumed are gone, an
      erase sets the flag, and the status is X_OK exactly when every
      operation succeeded (X_ERROR_FLASH otherwise); on success the number
      and the cursor have advanced past the payload, otherwise they are as
      they were. */
  predicate Commits(payload: seq<byte>, status: Status, before: Statics, results: seq<bool>, log: seq<FlashOp>,
                    after: Statics, log': seq<FlashOp>, results': seq<bool>)
  {
    var ops := CommitOps(before.cursor, payload, results);
    && log' == log + ops
    && results' == Drop(results, |ops|)
    && after.first == (before.first || before.cursor == FLASH_APP_START_ADDRESS)
    && (status == X_OK <==> AllOk(ops))
    && (status != X_OK ==> status == X_ERROR_FLASH)
    && (status == X_OK ==>
          && after.number == NextNumber(before.number)
          && after.cursor == (before.cursor + |payload|) % ADDRESS_SPACE
          && after.bytes == before.bytes + |payload| && after.packets == before.packets + 1)
    && (status != X_OK ==>
          && after.number == before.number && after.cursor == before.cursor
          && after.bytes == before.bytes && after.packets == before.packets)
  }

  /** Accepting one more frame keeps the receiver consistent. */
  lemma AdvanceConsistent(number: byte, address: nat, bytes: nat, packets: nat, size: nat)
    requires Consistent(number, address, bytes, packets)
    requires size == PACKET_128_SIZE || size == PACKET_1024_SIZE
    ensures Consistent(NextNumber(number), (address + size) % ADDRESS_SPACE, bytes + size, packets + 1)
  {
    NumberWraps(number, 1 + packets);
    AddressWraps(FLASH_APP_START_ADDRESS, bytes, size);
  }

  /** Adding to a 32-bit address: wrapping after each step equals wrapping once. */
  lemma AddressWraps(base: nat, a: nat, s: nat)
    ensures ((base + a) % ADDRESS_SPACE + s) % ADDRESS_SPACE == (base + a + s) % ADDRESS_SPACE
  {
    var q := (base + a) / ADDRESS_SPACE;
    assert base + a == q * ADDRESS_SPACE + (base + a) % ADDRESS_SPACE;
    assert base + a + s == q * ADDRESS_SPACE + ((base + a) % ADDRESS_SPACE + s);
    ModShift(q, (base + a) % ADDRESS_SPACE + s);
  }

  lemma ModShift(q: nat, r: nat)
    ensures (q * ADDRESS_SPACE + r) % ADDRESS_SPACE == r % ADDRESS_SPACE
  {
    if q > 0 {
      ModShift(q - 1, r);
      assert q * ADDRESS_SPACE + r == (q - 1) * ADDRESS_SPACE + r + ADDRESS_SPACE;
    }
  }

  /** A receive that delivered at least `length` bytes leaves them in the
      first `length` places of the buffer. */
  lemma DeliveredPrefix(stale: seq<byte>, data: seq<byte>, length: nat)
    requires length <= |stale|
    ensures length <= |data| ==> Delivered(Fill(stale, data, length), data, length)
  {
    if length <= |data| {
      var f := Fill(stale, data, length);
      assert forall i :: 0 <= i < length ==> f[..length][i] == data[..length][i];
    }
  }

  /** What a session leaves in the flash log: every operation in sequence,
      nothing after a fault, the image as long as the accepted payloads, an
      erase before anything else, and at most one erase while the image
      fits in the 32-bit address space. */
  predicate SessionLog(seg: seq<FlashOp>, accepted: nat) {
    && InSequence(seg)
    && FaultIsLast(seg)
    && |Image(seg)| == accepted
    && (seg != [] ==> seg[0].Erase?)
    && (accepted < ADDRESS_SPACE ==> EraseCount(seg) <= 1)
  }

  /** A running session has erased exactly once if it has accepted a frame,
      and not at all before. */
  predicate ErasedOnce(seg: seq<FlashOp>, accepted: nat) {
    accepted < ADDRESS_SPACE ==> EraseCount(seg) == (if accepted == 0 then 0 else 1)
  }

  /** The operations one loop iteration appends keep the session's log
      invariant: none, or those of a frame accepted at the cursor. */
  lemma SessionLogStep(seg: seq<FlashOp>, accepted: nat, ops: seq<FlashOp>, payload: seq<byte>,
                       results: seq<bool>, accepted': nat)
    requires SessionLog(seg, accepted) && AllOk(seg) && ErasedOnce(seg, accepted)
    requires ops == [] ==> accepted' == accepted
    requires ops != [] ==>
      && (|payload| == PACKET_128_SIZE || |payload| == PACKET_1024_SIZE)
      && ops == CommitOps(Cursor(seg), payload, results)
      && accepted' == accepted + (if AllOk(ops) then |payload| else 0)
    ensures SessionLog(seg + ops, accepted')
    ensures AllOk(ops) ==> AllOk(seg + ops) && ErasedOnce(seg + ops, accepted')
    ensures !AllOk(ops) ==> FlashFaulted(seg + ops)
  {
    if ops == [] {
      assert seg + ops == seg;
    } else {
      SessionLogCommit(seg, accepted, payload, results, accepted');
    }
  }

  /** `SessionLogStep` for the operations of an accepted frame. */
  lemma SessionLogCommit(seg: seq<FlashOp>, accepted: nat, payload: seq<byte>,
                         results: seq<bool>, accepted': nat)
    requires SessionLog(seg, accepted) && AllOk(seg) && ErasedOnce(seg, accepted)
    requires |payload| == PACKET_128_SIZE || |payload| == PACKET_1024_SIZE
    requires accepted' == accepted
      + (if AllOk(CommitOps(Cursor(seg), payload, results)) then |payload| else 0)
    ensures var ops := CommitOps(Cursor(seg), payload, results);
      && SessionLog(seg + ops, accepted')
      && (AllOk(ops) ==> AllOk(seg + ops) && ErasedOnce(seg + ops, accepted'))
      && (!AllOk(ops) ==> FlashFaulted(seg + ops))
  {
    CommitKeepsSequence(seg, payload, results);
    CommitImage(seg, accepted, payload, results, accepted');
    CommitStartsWithErase(seg, payload, results);
    CommitErases(seg, accepted, payload, results, accepted');
    CommitFaults(seg, payload, results);
  }

  /** The image grows by the payload exactly when every operation succeeded. */
  lemma CommitImage(seg: seq<FlashOp>, accepted: nat, payload: seq<byte>,
                    results: seq<bool>, accepted': nat)
    requires InSequence(seg) && AllOk(seg) && |Image(seg)| == accepted
    requires |payload| % 4 == 0
    requires accepted' == accepted
      + (if AllOk(CommitOps(Cursor(seg), payload, results)) then |payload| else 0)
    ensures |Image(seg + CommitOps(Cursor(seg), payload, results))| == accepted'
  {
    CommitKeepsSequence(seg, payload, results);
  }

  /** A log that starts with an erase, or is empty, still starts with an
      erase after the operations of an accepted frame. */
  lemma CommitStartsWithErase(seg: seq<FlashOp>, payload: seq<byte>, results: seq<bool>)
    requires seg != [] ==> seg[0].Erase?
    ensures (seg + CommitOps(Cursor(seg), payload, results))[0].Erase?
  {
    var ops := CommitOps(Cursor(seg), payload, results);
    if seg != [] {
      assert (seg + ops)[0] == seg[0];
    } else {
      assert Cursor(seg) == FLASH_APP_START_ADDRESS;
      assert (seg + ops)[0] == ops[0];
    }
  }

  /** The erase count after the operations of an accepted frame: the first
      frame of a session erases, later ones do not, while the image fits in
      the address space. */
  lemma CommitErases(seg: seq<FlashOp>, accepted: nat, payload: seq<byte>,
                     results: seq<bool>, accepted': nat)
    requires InSequence(seg) && AllOk(seg) && |Image(seg)| == accepted
    requires ErasedOnce(seg, accepted)
    requires |payload| == PACKET_128_SIZE || |payload| == PACKET_1024_SIZE
    requires accepted' == accepted
      + (if AllOk(CommitOps(Cursor(seg), payload, results)) then |payload| else 0)
    ensures var all := seg + CommitOps(Cursor(seg), payload, results);
      && (accepted' < ADDRESS_SPACE ==> EraseCount(all) <= 1)
      && (AllOk(CommitOps(Cursor(seg), payload, results)) ==> ErasedOnce(all, accepted'))
  {
    CommitEraseCount(seg, payload, results);
    if accepted < ADDRESS_SPACE {
      CursorOfImage(seg, accepted);
    }
  }

  /** The operations of an accepted frame erase once at the application
      start and not elsewhere. */
  lemma CommitEraseCount(log: seq<FlashOp>, payload: seq<byte>, results: seq<bool>)
    ensures EraseCount(log + CommitOps(Cursor(log), payload, results))
         == EraseCount(log) + (if Cursor(log) == FLASH_APP_START_ADDRESS then 1 else 0)
  {
    var ops := CommitOps(Cursor(log), payload, results);
    EraseCountAppend(log, ops);
    assert [ops[0]][..0] == [];
    if |ops| == 2 {
      assert ops[..1] == [ops[0]];
    }
  }

  /** Within the address space, the cursor is at the application start
      exactly when nothing has been programmed. */
  lemma CursorOfImage(seg: seq<FlashOp>, accepted: nat)
    requires |Image(seg)| == accepted < ADDRESS_SPACE
    ensures Cursor(seg) == FLASH_APP_START_ADDRESS <==> accepted == 0
  {
    CursorAtStart(accepted);
  }

  /** After the operations of an accepted frame the log is fault-free when
      they all succeeded, and faulted otherwise. */
  lemma CommitFaults(seg: seq<FlashOp>, payload: seq<byte>, results: seq<bool>)
    requires InSequence(seg) && AllOk(seg)
    requires |payload| % 4 == 0
    ensures var ops := CommitOps(Cursor(seg), payload, results);
      && (AllOk(ops) ==> AllOk(seg + ops))
      && (!AllOk(ops) ==> FlashFaulted(seg + ops))
  {
    var ops := CommitOps(Cursor(seg), payload, results);
    CommitKeepsSequence(seg, payload, results);
    if AllOk(ops) {
      AllOkAppend(seg, ops);
    }
  }

  lemma AllOkAppend(a: seq<FlashOp>, b: seq<FlashOp>)
    requires AllOk(a) && AllOk(b)
    ensures AllOk(a + b)
  {
    assert forall i :: 0 <= i < |a| ==> (a + b)[i] == a[i];
    assert forall i :: 0 <= i < |b| ==> (a + b)[|a| + i] == b[i];
  }

  /** The error counter stays below the limit while the session runs, so
      raising it never wraps. */
  lemma CountUp(e: bv8, r: nat)
    requires e as int == r && r < X_MAX_ERRORS as int
    ensures (e + 1) as int == r + 1
  {
  }

  /** A header wait keeps a session standing: a read that was not counted
      changes nothing that `Standing` looks at, and a counted one adds a
      rejection answered with NAK below the limit or with CAN CAN at it. */
  lemma HeaderKeeps(seg: seq<FlashOp>, accepted: nat, first: bool, errorNumber: bv8, rejections: nat,
                    naks: int, tx0: seq<TxItem>, header: byte, status: Status, errors: bv8,
                    counted: bool, rejections': nat, naks': int, tx: seq<TxItem>)
    requires Standing(seg, accepted, first, X_OK, 0, errorNumber, rejections, naks, false, tx0)
    requires !counted ==> status == X_OK && errors == errorNumber && rejections' == rejections && naks' == naks
    requires counted ==> && header != CAN && rejections' == rejections + 1
                         && errors == errorNumber + 1 && (status == X_OK <==> errors < X_MAX_ERRORS)
                         && (status != X_OK ==> status == X_ERROR)
                         && tx == tx0 + (if status == X_OK then [Ch(NAK)] else [Ch(CAN), Ch(CAN)])
                         && naks' == naks + (if status == X_OK then 1 else 0)
    ensures Standing(seg, accepted, first, status, header, errors, rejections', naks', false, tx)
  {
    if counted {
      CountUp(errorNumber, rejections);
      if status != X_OK {
        assert tx[|tx| - 2..] == [Ch(CAN), Ch(CAN)];
        assert !FlashFaulted(seg) by {
          assert AllOk(seg);
        }
      }
    }
  }

  /** The NAKs in a record of transmissions. */
  function NakCount(tx: seq<TxItem>): nat {
    if tx == [] then 0
    else NakCount(tx[..|tx| - 1]) + (if tx[|tx| - 1] == Ch(NAK) then 1 else 0)
  }

  /** One more transmission adds one NAK exactly when it is a NAK. */
  lemma NakCountSnoc(tx: seq<TxItem>, x: TxItem)
    ensures NakCount(tx + [x]) == NakCount(tx) + (if x == Ch(NAK) then 1 else 0)
  {
    assert (tx + [x])[..|tx|] == tx;
  }

  /** The NAKs of two records of transmissions add up. */
  lemma {:induction false} NakCountAppend(a: seq<TxItem>, b: seq<TxItem>)
    ensures NakCount(a + b) == NakCount(a) + NakCount(b)
    decreases |b|
  {
    if b != [] {
      var c := b[..|b| - 1];
      NakCountAppend(a, c);
      assert (a + b)[..|a + b| - 1] == a + c;
    } else {
      assert a + b == a;
    }
  }

  /** How a session stands between two iterations of its loop, given its
      flash log `seg`, the accepted bytes, the first-packet flag, the loop's
      status, the last header, the error counter, the rejections counted,
      the NAKs the session transmitted, whether control has passed to the
      application and what was transmitted. The log is well formed and the
      flag says whether it is empty. While the status is X_OK nothing has
      faulted, and the error counter equals the rejections counted, below
      the limit, each of them answered with a NAK. Control has passed to the
      application only after the ACK and the two messages. A CAN header
      stops the session with nothing faulted. Any other stop follows CAN CAN
      and is due either to a flash fault, with every rejection NAKed, or to
      the limit, where the last rejection got CAN CAN instead of a NAK. */
  predicate Standing(seg: seq<FlashOp>, accepted: nat, first: bool, status: Status, header: byte,
                     errorNumber: bv8, rejections: nat, naks: int, jumped: bool, tx: seq<TxItem>)
  {
    && SessionLog(seg, accepted)
    && (first <==> seg != [])
    && (status == X_OK || status == X_ERROR)
    && (status == X_OK ==>
          && AllOk(seg) && ErasedOnce(seg, accepted)
          && errorNumber as int == rejections && rejections < X_MAX_ERRORS as int
          && naks == rejections)
    && (jumped ==> status == X_OK && EndsWith(tx, [Ch(ACK), Str(MSG_UPDATED), Str(MSG_JUMPING)]))
    && (status == X_ERROR ==> !jumped)
    && (status == X_ERROR && header == CAN ==>
          AllOk(seg) && rejections < X_MAX_ERRORS as int && naks == rejections)
    && (status == X_ERROR && header != CAN ==>
          && EndsWith(tx, [Ch(CAN), Ch(CAN)])
          && ((FlashFaulted(seg) && rejections < X_MAX_ERRORS as int && naks == rejections)
              || (!FlashFaulted(seg) && rejections == X_MAX_ERRORS as int && naks == rejections - 1)))
  }

  /** What handling one data frame did, from a cursor `cursor`, `accepted`
      bytes, the first-packet flag `first`, the flash results `results` and
      the error counter `errorNumber`, to the flash operations `ops` (those
      of the accepted `payload`, or none), the new accepted bytes and flag,
      the loop's status and counter, and the transmissions `tx0` to `tx`.
      A frame that was not flashed counts one error, answered with NAK below
      the limit and with CAN CAN at it; one that was flashed is ACKed, or on
      a flash fault ends the session with CAN CAN. */
  predicate FrameOutcome(cursor: nat, accepted: nat, first: bool, results: seq<bool>, errorNumber: bv8,
                         ops: seq<FlashOp>, payload: seq<byte>, accepted': nat, first': bool,
                         status: Status, errors: bv8, counted: bool, tx0: seq<TxItem>, tx: seq<TxItem>)
  {
    && (ops == [] ==> accepted' == accepted)
    && (ops != [] ==>
          && (|payload| == PACKET_128_SIZE || |payload| == PACKET_1024_SIZE)
          && ops == CommitOps(cursor, payload, results)
          && accepted' == accepted + (if AllOk(ops) then |payload| else 0))
    && first' == (first || (ops != [] && cursor == FLASH_APP_START_ADDRESS))
    && (status == X_OK || status == X_ERROR)
    && (counted ==> ops == [] && errors == errorNumber + 1 && (status == X_OK <==> errors < X_MAX_ERRORS))
    && (counted ==> tx == tx0 + (if status == X_OK then [Ch(NAK)] else [Ch(CAN), Ch(CAN)]))
    && (!counted ==> ops != [])
    && (!counted && AllOk(ops) ==> errors == errorNumber && status == X_OK && tx == tx0 + [Ch(ACK)])
    && (!AllOk(ops) ==> && status == X_ERROR && !counted && errors == X_MAX_ERRORS + 1
                        && tx == tx0 + [Ch(CAN), Ch(CAN)])
    && (status == X_ERROR ==> EndsWith(tx, [Ch(CAN), Ch(CAN)]))
    && NakCount(tx) == NakCount(tx0) + (if counted && status == X_OK then 1 else 0)
  }

  /** A data frame handled from a running session leaves the session
      standing, with the log extended by the frame's flash operations. */
  lemma DataFrameKeeps(seg: seq<FlashOp>, accepted: nat, first: bool, header: byte, errorNumber: bv8,
                       rejections: nat, results: seq<bool>, ops: seq<FlashOp>, payload: seq<byte>,
                       accepted': nat, first': bool, status: Status, errors: bv8, counted: bool,
                       rejections': nat, naks: int, tx0: seq<TxItem>, tx: seq<TxItem>)
    requires header == SOH || header == STX
    requires Standing(seg, accepted, first, X_OK, header, errorNumber, rejections, naks, false, tx0)
    requires FrameOutcome(Cursor(seg), accepted, first, results, errorNumber, ops, payload,
                          accepted', first', status, errors, counted, tx0, tx)
    requires rejections' == rejections + (if counted then 1 else 0)
    ensures Standing(seg + ops, accepted', first', status, header, errors, rejections',
                     naks + (NakCount(tx) - NakCount(tx0)), false, tx)
  {
    SessionLogStep(seg, accepted, ops, payload, results, accepted');
    if counted {
      CountUp(errorNumber, rejections);
      assert seg + ops == seg;
    }
  }

  // ---------------------------------------------------------------------
  // xmodem_error_handler

  /** Counts one more error; at `maxErrorNumber` it cancels the transfer
      with two CAN bytes, below it asks for a repeat with NAK. */
  method ErrorHandler(hal: Board, errorNumber: bv8, maxErrorNumber: bv8)
    returns (status: Status, errors: bv8)
    modifies hal`tx
    ensures errors == errorNumber + 1
    ensures status == X_ERROR <==> errors >= maxErrorNumber
    ensures status == X_OK <==> errors < maxErrorNumber
    ensures hal.tx == old(hal.tx) + (if status == X_ERROR then [Ch(CAN), Ch(CAN)] else [Ch(NAK)])
    ensures NakCount(hal.tx) == NakCount(old(hal.tx)) + (if status == X_OK then 1 else 0)
  {
    errors := errorNumber + 1;
    if errors >= maxErrorNumber {
      NakCountSnoc(hal.tx, Ch(CAN));
      hal.TransmitCh(CAN);
      NakCountSnoc(hal.tx, Ch(CAN));
      hal.TransmitCh(CAN);
      assert hal.tx == old(hal.tx) + [Ch(CAN)] + [Ch(CAN)];
      status := X_ERROR;
    } else {
      NakCountSnoc(hal.tx, Ch(NAK));
      hal.TransmitCh(NAK);
      status := X_OK;
    }
  }

  // ---------------------------------------------------------------------
  // A session as a function of the scripts

  /** The state of xmodem_receive between two iterations of its loop: the
      three statics (expected packet number, flash cursor, first-packet
      flag); the loop's error counter, status and last header; whether
      control has passed to the application; the flash operations and the
      transmissions of the session so far; what is left of the receive,
      flash-result and stack scripts; and the errors the error handler
      counted (a count the firmware does not keep: after a flash fault it
      forces its counter to the limit instead). */
  datatype Loop = Loop(number: byte, cursor: nat, first: bool,
                       errors: bv8, status: Status, header: byte, jumped: bool,
                       log: seq<FlashOp>, tx: seq<TxItem>,
                       rx: seq<RxResult>, results: seq<bool>, stack: seq<seq<byte>>,
                       rejections: nat)

  /** Lines 35-40 of xmodem_receive: packet 1, the cursor at the
      application start, no frame yet, no error. */
  function Start(rx: seq<RxResult>, results: seq<bool>, stack: seq<seq<byte>>): Loop {
    Loop(1, FLASH_APP_START_ADDRESS, false, 0, X_OK, 0, false, [], [], rx, results, stack, 0)
  }

  /** The loop goes on: the status is X_OK, control has not left, and the
      host's script has more to say (the firmware would wait forever). */
  predicate Running(l: Loop) {
    l.status == X_OK && !l.jumped && l.rx != []
  }

  /** What is left of a script after `n` calls that each take one entry. */
  function Drop<T>(s: seq<T>, n: nat): seq<T> {
    if n <= |s| then s[n..] else []
  }

  /** One more call after `k` takes the next entry. */
  lemma DropNext<T>(s: seq<T>, k: nat)
    ensures Rest(Drop(s, k)) == Drop(s, k + 1)
  {
    if k + 1 <= |s| {
      assert s[k..][1..] == s[k + 1..];
    }
  }

  /** xmodem_error_handler on the loop state: one more error, answered with
      NAK below the limit and with CAN CAN and X_ERROR at it. */
  function Reject(l: Loop): Loop {
    var e := l.errors + 1;
    if e >= X_MAX_ERRORS then l.(errors := e, status := X_ERROR, tx := l.tx + [Ch(CAN), Ch(CAN)])
    else l.(errors := e, status := X_OK, tx := l.tx + [Ch(NAK)])
  }

  /** An error the error handler counts. */
  function Counted(l: Loop): Loop {
    Reject(l.(rejections := l.rejections + 1))
  }

  /** Lines 45-66: the header read (0 when it fails); a failed read prompts
      with 'C' before the first frame and counts an error after it. */
  function HeaderStep(l: Loop): (r: Loop)
    requires l.rx != []
    ensures r.rx == l.rx[1..]
    ensures r.log == l.log && r.stack == l.stack && r.jumped == l.jumped
  {
    var ok := l.rx[0].RxOk?;
    var read := l.(header := if ok && l.rx[0].data != [] then l.rx[0].data[0] else 0, rx := l.rx[1..]);
    if ok then read
    else if !l.first then read.(tx := l.tx + [Ch(C)])
    else Counted(read)
  }

  /** The receive buffer of xmodem_handle_packet after the frame read: the
      stack contents of the uninitialised local, overwritten by what a
      successful receive delivered. */
  function Frame(rx: seq<RxResult>, stack: seq<seq<byte>>, size: nat): (f: seq<byte>)
    requires size <= PACKET_1024_SIZE
    ensures |f| == BUFFER_SIZE
    ensures ReceiveOk(rx) && FrameLength(size) <= |rx[0].data| ==>
      Delivered(f, rx[0].data, FrameLength(size))
  {
    var held := StackBytes(stack, BUFFER_SIZE);
    DeliveredPrefix(held, if ReceiveOk(rx) then rx[0].data else [], FrameLength(size));
    if ReceiveOk(rx) then Fill(held, rx[0].data, FrameLength(size)) else held
  }

  /** Lines 76-92 once the frame after a data header is read (`l` has the
      receive and the stack already consumed): a frame that failed a check
      (`passed` false) counts an error; one that passed has its `payload`
      flashed at the cursor and is then ACKed with the number and the
      cursor advanced, or, on a flash fault, ends the session (the counter
      forced to the limit, CAN CAN). */
  function Judge(l: Loop, passed: bool, payload: seq<byte>): (r: Loop)
    ensures r.rx == l.rx && r.stack == l.stack && r.header == l.header && r.jumped == l.jumped
  {
    if !passed then Counted(l)
    else
      var ops := CommitOps(l.cursor, payload, l.results);
      var flashed := l.(first := l.first || l.cursor == FLASH_APP_START_ADDRESS,
                        log := l.log + ops, results := Drop(l.results, |ops|));
      if AllOk(ops) then
        flashed.(number := NextNumber(l.number), cursor := (l.cursor + |payload|) % ADDRESS_SPACE,
                 tx := l.tx + [Ch(ACK)])
      else Reject(flashed.(errors := X_MAX_ERRORS))
  }

  /** The loop state once the frame after a header has been received into
      the local buffer. */
  function Consumed(l: Loop): (r: Loop)
    ensures r.rx == Rest(l.rx) && r.stack == Rest(l.stack)
  {
    l.(rx := Rest(l.rx), stack := Rest(l.stack))
  }

  /** Lines 73-92 with xmodem_handle_packet: the frame after a data header
      is read into the uninitialised local, checked against the expected
      number, and judged. */
  function DataStep(l: Loop): (r: Loop)
    requires l.header == SOH || l.header == STX
    ensures r.rx == Rest(l.rx)
  {
    var size := PayloadSize(l.header);
    var frame := Frame(l.rx, l.stack, size);
    Judge(Consumed(l),
          CheckErrors(l.number, ReceiveOk(l.rx), frame, size) == X_OK, Payload(frame, size))
  }

  /** Lines 93-111: EOT acknowledges, reports and jumps; CAN stops the
      session; any other header counts an error when it was actually read
      (`ok`). */
  function OtherStep(l: Loop, ok: bool): (r: Loop)
    ensures r.rx == l.rx && r.log == l.log && r.stack == l.stack
    ensures r.jumped <==> l.jumped || l.header == EOT
  {
    if l.header == EOT then
      l.(tx := l.tx + [Ch(ACK), Str(MSG_UPDATED), Str(MSG_JUMPING)], jumped := true)
    else if l.header == CAN then l.(status := X_ERROR)
    else if ok then Counted(l)
    else l
  }

  /** One iteration of the loop of xmodem_receive (lines 43-112). */
  function Step(l: Loop): (r: Loop)
    requires l.rx != []
    ensures |r.rx| < |l.rx|
  {
    var read := HeaderStep(l);
    if read.header == SOH || read.header == STX then DataStep(read)
    else OtherStep(read, l.rx[0].RxOk?)
  }

  /** The loop of xmodem_receive from state `l`, until it stops. */
  function Run(l: Loop): (r: Loop)
    ensures !Running(r)
    ensures |r.rx| <= |l.rx| && (Running(l) ==> |r.rx| < |l.rx|)
    decreases |l.rx|
  {
    if Running(l) then Run(Step(l)) else l
  }

  /** xmodem_receive over the host's receives `rx`, the flash results
      `results` and the stack contents `stack`. */
  function Session(rx: seq<RxResult>, results: seq<bool>, stack: seq<seq<byte>>): (s: Loop)
    ensures !Running(s)
    ensures rx != [] ==> |s.rx| < |rx|
  {
    Run(Start(rx, results, stack))
  }

  /** How a stopped session ended. */
  function EndOf(s: Loop): SessionEnd {
    if s.jumped then Completed
    else if s.status == X_OK then Waiting
    else if s.header == CAN then Cancelled
    else GaveUp
  }

  // ---------------------------------------------------------------------
  // What a session keeps

  /** `Standing` for a loop state, with the cursor where its log leaves it. */
  predicate Stands(l: Loop) {
    && Standing(l.log, |Image(l.log)|, l.first, l.status, l.header, l.errors, l.rejections,
                NakCount(l.tx), l.jumped, l.tx)
    && l.cursor == Cursor(l.log)
  }

  /** The NAKs the error handler adds: one below the limit, none at it. */
  lemma RejectNaks(l: Loop)
    ensures NakCount(Reject(l).tx) == NakCount(l.tx) + (if Reject(l).status == X_OK then 1 else 0)
    ensures Reject(l).status == X_OK ==> Reject(l).tx == l.tx + [Ch(NAK)]
    ensures Reject(l).status != X_OK ==> Reject(l).tx == l.tx + [Ch(CAN), Ch(CAN)]
  {
    if l.errors + 1 >= X_MAX_ERRORS {
      NakCountSnoc(l.tx, Ch(CAN));
      NakCountSnoc(l.tx + [Ch(CAN)], Ch(CAN));
      assert l.tx + [Ch(CAN)] + [Ch(CAN)] == l.tx + [Ch(CAN), Ch(CAN)];
    } else {
      NakCountSnoc(l.tx, Ch(NAK));
    }
  }

  /** The header read keeps a running session standing. */
  lemma HeaderStepStands(l: Loop)
    requires Stands(l) && Running(l)
    ensures Stands(HeaderStep(l))
  {
    var r := HeaderStep(l);
    var ok := l.rx[0].RxOk?;
    var counted := !ok && l.first;
    if !ok && !l.first {
      NakCountSnoc(l.tx, Ch(C));
    }
    if counted {
      RejectNaks(l.(header := 0, rx := l.rx[1..], rejections := l.rejections + 1));
    }
    HeaderKeeps(l.log, |Image(l.log)|, l.first, l.errors, l.rejections, NakCount(l.tx), l.tx,
                r.header, r.status, r.errors, counted, r.rejections, NakCount(r.tx), r.tx);
  }

  /** The image after the operations of an accepted frame: the payload is
      added exactly when they all succeeded. */
  lemma CommitImageGrows(log: seq<FlashOp>, cursor: nat, payload: seq<byte>, results: seq<bool>)
    ensures var ops := CommitOps(cursor, payload, results);
      Image(log + ops) == Image(log) + (if AllOk(ops) then payload else [])
  {
    var ops := CommitOps(cursor, payload, results);
    SnocImage(log, ops[0]);
    if |ops| == 2 {
      var erased := log + [ops[0]];
      assert Image(erased) == Image(log);
      SnocImage(erased, ops[1]);
      assert log + ops == erased + [ops[1]];
      assert AllOk(ops) <==> ops[1].ok;
    } else {
      assert log + ops == log + [ops[0]];
      assert AllOk(ops) <==> ops[0].ok;
    }
  }

  /** The operations a judged frame adds to the flash log. */
  function JudgedOps(l: Loop, passed: bool, payload: seq<byte>): seq<FlashOp> {
    if passed then CommitOps(l.cursor, payload, l.results) else []
  }

  /** A frame that failed a check is rejected: one more error and one
      more rejection, answered with NAK below the limit and with CAN CAN
      at it, and nothing else changes. */
  lemma JudgeRejected(l: Loop, payload: seq<byte>)
    ensures var r := Judge(l, false, payload);
      && r.log == l.log && r.results == l.results && r.first == l.first
      && r.number == l.number && r.cursor == l.cursor
      && r.errors == l.errors + 1 && r.rejections == l.rejections + 1
      && (r.status == X_OK <==> r.errors < X_MAX_ERRORS) && (r.status != X_OK ==> r.status == X_ERROR)
      && r.tx == l.tx + (if r.status == X_OK then [Ch(NAK)] else [Ch(CAN), Ch(CAN)])
      && NakCount(r.tx) == NakCount(l.tx) + (if r.status == X_OK then 1 else 0)
  {
    RejectNaks(l.(rejections := l.rejections + 1));
  }

  /** A frame that passed and was programmed is ACKed, with its payload
      added to the image and the number and the cursor advanced. */
  lemma JudgeFlashed(l: Loop, payload: seq<byte>)
    requires AllOk(CommitOps(l.cursor, payload, l.results))
    ensures var r := Judge(l, true, payload);
      var ops := CommitOps(l.cursor, payload, l.results);
      && r.log == l.log + ops && r.results == Drop(l.results, |ops|)
      && r.first == (l.first || l.cursor == FLASH_APP_START_ADDRESS)
      && r.number == NextNumber(l.number) && r.cursor == (l.cursor + |payload|) % ADDRESS_SPACE
      && r.status == l.status && r.errors == l.errors && r.rejections == l.rejections
      && r.tx == l.tx + [Ch(ACK)] && NakCount(r.tx) == NakCount(l.tx)
      && Image(r.log) == Image(l.log) + payload
  {
    var ops := CommitOps(l.cursor, payload, l.results);
    var flashed := l.(first := l.first || l.cursor == FLASH_APP_START_ADDRESS,
                      log := l.log + ops, results := Drop(l.results, |ops|));
    assert Judge(l, true, payload) == flashed.(number := NextNumber(l.number),
      cursor := (l.cursor + |payload|) % ADDRESS_SPACE, tx := l.tx + [Ch(ACK)]);
    CommitImageGrows(l.log, l.cursor, payload, l.results);
    NakCountSnoc(l.tx, Ch(ACK));
  }

  /** A frame that passed but whose programming faulted ends the session:
      the counter is forced past the limit and CAN CAN is sent, with the
      image, the number and the cursor as they were. */
  lemma JudgeFaulted(l: Loop, payload: seq<byte>)
    requires !AllOk(CommitOps(l.cursor, payload, l.results))
    ensures var r := Judge(l, true, payload);
      var ops := CommitOps(l.cursor, payload, l.results);
      && r.log == l.log + ops && r.results == Drop(l.results, |ops|)
      && r.first == (l.first || l.cursor == FLASH_APP_START_ADDRESS)
      && r.number == l.number && r.cursor == l.cursor
      && r.status == X_ERROR && r.errors == X_MAX_ERRORS + 1 && r.rejections == l.rejections
      && r.tx == l.tx + [Ch(CAN), Ch(CAN)] && NakCount(r.tx) == NakCount(l.tx)
      && Image(r.log) == Image(l.log)
  {
    CommitImageGrows(l.log, l.cursor, payload, l.results);
    var ops := CommitOps(l.cursor, payload, l.results);
    RejectNaks(l.(first := l.first || l.cursor == FLASH_APP_START_ADDRESS,
                  log := l.log + ops, results := Drop(l.results, |ops|), errors := X_MAX_ERRORS));
  }

  /** What judging a frame does, as `FrameOutcome` describes it: only a
      frame that passed is flashed, what is flashed is its payload at the
      cursor, and only a flashed frame advances the number and the cursor. */
  lemma JudgeOutcome(l: Loop, passed: bool, payload: seq<byte>)
    requires l.status == X_OK
    requires |payload| == PACKET_128_SIZE || |payload| == PACKET_1024_SIZE
    ensures var r := Judge(l, passed, payload);
      var ops := JudgedOps(l, passed, payload);
      && (ops != [] <==> passed)
      && r.log == l.log + ops && r.results == Drop(l.results, |ops|)
      && (passed && AllOk(ops) ==>
            r.number == NextNumber(l.number) && r.cursor == (l.cursor + |payload|) % ADDRESS_SPACE)
      && (!(passed && AllOk(ops)) ==> r.number == l.number && r.cursor == l.cursor)
      && FrameOutcome(l.cursor, |Image(l.log)|, l.first, l.results, l.errors, ops, payload,
                      |Image(r.log)|, r.first, r.status, r.errors, !passed, l.tx, r.tx)
      && r.rejections == l.rejections + (if passed then 0 else 1)
  {
    var ops := JudgedOps(l, passed, payload);
    if !passed {
      JudgeRejected(l, payload);
      assert l.log + ops == l.log && Drop(l.results, 0) == l.results;
    } else if AllOk(ops) {
      JudgeFlashed(l, payload);
    } else {
      JudgeFaulted(l, payload);
      assert Judge(l, passed, payload).tx[|l.tx|..] == [Ch(CAN), Ch(CAN)];
    }
  }

  /** A data step judges the frame read after the header, with the
      verdict of every check for the expected number and its payload. */
  lemma DataStepJudged(l: Loop, passed: bool, payload: seq<byte>)
    requires l.header == SOH || l.header == STX
    requires passed == (CheckErrors(l.number, ReceiveOk(l.rx), Frame(l.rx, l.stack, PayloadSize(l.header)),
                                    PayloadSize(l.header)) == X_OK)
    requires payload == Payload(Frame(l.rx, l.stack, PayloadSize(l.header)), PayloadSize(l.header))
    ensures DataStep(l) == Judge(Consumed(l), passed, payload)
  {
  }

  /** What a data step flashes: the frame read after the header is
      flashed exactly when it passes every check for the expected number,
      and what is flashed is its payload at the cursor; a frame that fails
      is counted as a rejection and leaves the log as it was. */
  lemma DataStepOutcome(l: Loop)
    requires l.header == SOH || l.header == STX
    ensures var size := PayloadSize(l.header);
      var frame := Frame(l.rx, l.stack, size);
      var r := DataStep(l);
      && (CheckErrors(l.number, ReceiveOk(l.rx), frame, size) == X_OK ==>
            r.log == l.log + CommitOps(l.cursor, Payload(frame, size), l.results)
            && r.rejections == l.rejections)
      && (CheckErrors(l.number, ReceiveOk(l.rx), frame, size) != X_OK ==>
            r.log == l.log && r.rejections == l.rejections + 1)
  {
    var size := PayloadSize(l.header);
    var frame := Frame(l.rx, l.stack, size);
    var payload := Payload(frame, size);
    var read := Consumed(l);
    if CheckErrors(l.number, ReceiveOk(l.rx), frame, size) == X_OK {
      if AllOk(CommitOps(l.cursor, payload, l.results)) {
        JudgeFlashed(read, payload);
      } else {
        JudgeFaulted(read, payload);
      }
    } else {
      JudgeRejected(read, payload);
    }
  }

  /** Judging a frame keeps a running session standing. */
  lemma JudgeStands(l: Loop, passed: bool, payload: seq<byte>)
    requires Stands(l) && l.status == X_OK && !l.jumped && (l.header == SOH || l.header == STX)
    requires |payload| == PACKET_128_SIZE || |payload| == PACKET_1024_SIZE
    ensures Stands(Judge(l, passed, payload))
  {
    JudgeStanding(l, passed, payload);
    JudgeCursor(l, passed, payload);
  }

  /** Judging a frame keeps `Standing`. */
  lemma JudgeStanding(l: Loop, passed: bool, payload: seq<byte>)
    requires Stands(l) && l.status == X_OK && !l.jumped && (l.header == SOH || l.header == STX)
    requires |payload| == PACKET_128_SIZE || |payload| == PACKET_1024_SIZE
    ensures var r := Judge(l, passed, payload);
      Standing(r.log, |Image(r.log)|, r.first, r.status, r.header, r.errors, r.rejections,
               NakCount(r.tx), r.jumped, r.tx)
  {
    var r := Judge(l, passed, payload);
    JudgeOutcome(l, passed, payload);
    var ops := JudgedOps(l, passed, payload);
    DataFrameKeeps(l.log, |Image(l.log)|, l.first, l.header, l.errors, l.rejections, l.results, ops,
                   payload, |Image(r.log)|, r.first, r.status, r.errors, !passed, r.rejections,
                   NakCount(l.tx), l.tx, r.tx);
    assert l.log + ops == r.log && r.header == l.header && !r.jumped;
    assert NakCount(l.tx) + (NakCount(r.tx) - NakCount(l.tx)) == NakCount(r.tx);
  }

  /** Judging a frame keeps the cursor where the log leaves it. */
  lemma JudgeCursor(l: Loop, passed: bool, payload: seq<byte>)
    requires l.cursor == Cursor(l.log)
    ensures var r := Judge(l, passed, payload); r.cursor == Cursor(r.log)
  {
    if !passed {
      assert Judge(l, passed, payload) == Counted(l);
    } else if AllOk(CommitOps(l.cursor, payload, l.results)) {
      FlashedCursor(l, payload);
    } else {
      FaultedCursor(l, payload);
    }
  }

  /** A frame that was programmed moves the cursor past its payload. */
  lemma FlashedCursor(l: Loop, payload: seq<byte>)
    requires l.cursor == Cursor(l.log) && AllOk(CommitOps(l.cursor, payload, l.results))
    ensures var r := Judge(l, true, payload); r.cursor == Cursor(r.log)
  {
    JudgeFlashed(l, payload);
    var r := Judge(l, true, payload);
    CursorAdvances(l.log, r.log, l.cursor, |payload|);
  }

  /** A frame whose programming faulted leaves the cursor and the image. */
  lemma FaultedCursor(l: Loop, payload: seq<byte>)
    requires l.cursor == Cursor(l.log) && !AllOk(CommitOps(l.cursor, payload, l.results))
    ensures var r := Judge(l, true, payload); r.cursor == Cursor(r.log)
  {
    JudgeFaulted(l, payload);
  }

  /** Writing `size` more bytes moves the cursor by `size`, in 32-bit
      address arithmetic. */
  lemma CursorAdvances(log: seq<FlashOp>, log': seq<FlashOp>, cursor: nat, size: nat)
    requires cursor == Cursor(log) && |Image(log')| == |Image(log)| + size
    ensures (cursor + size) % ADDRESS_SPACE == Cursor(log')
  {
    AddressWraps(FLASH_APP_START_ADDRESS, |Image(log)|, size);
  }

  /** A data step keeps a running session standing. */
  lemma DataStepStands(l: Loop)
    requires Stands(l) && l.status == X_OK && !l.jumped && (l.header == SOH || l.header == STX)
    ensures Stands(DataStep(l))
  {
    var size := PayloadSize(l.header);
    var frame := Frame(l.rx, l.stack, size);
    JudgeStands(Consumed(l),
                CheckErrors(l.number, ReceiveOk(l.rx), frame, size) == X_OK, Payload(frame, size));
  }

  /** The other headers keep a running session standing. */
  lemma OtherStepStands(l: Loop, ok: bool)
    requires Stands(l) && l.status == X_OK && !l.jumped
    requires l.header != SOH && l.header != STX
    ensures Stands(OtherStep(l, ok))
  {
    if l.header == EOT {
      EotStands(l);
      assert OtherStep(l, ok) == l.(tx := l.tx + [Ch(ACK), Str(MSG_UPDATED), Str(MSG_JUMPING)], jumped := true);
    } else if l.header != CAN && ok {
      CountedStands(l);
      assert OtherStep(l, ok) == Counted(l);
    }
  }

  /** The EOT header keeps a running session standing. */
  lemma EotStands(l: Loop)
    requires Stands(l) && l.status == X_OK && !l.jumped
    ensures Stands(l.(tx := l.tx + [Ch(ACK), Str(MSG_UPDATED), Str(MSG_JUMPING)], jumped := true))
  {
    var tx := l.tx + [Ch(ACK), Str(MSG_UPDATED), Str(MSG_JUMPING)];
    NakCountSnoc(l.tx, Ch(ACK));
    NakCountSnoc(l.tx + [Ch(ACK)], Str(MSG_UPDATED));
    NakCountSnoc(l.tx + [Ch(ACK)] + [Str(MSG_UPDATED)], Str(MSG_JUMPING));
    assert tx == l.tx + [Ch(ACK)] + [Str(MSG_UPDATED)] + [Str(MSG_JUMPING)];
    assert tx[|tx| - 3..] == [Ch(ACK), Str(MSG_UPDATED), Str(MSG_JUMPING)];
  }

  /** An error counted outside a data frame keeps a running session
      standing. */
  lemma CountedStands(l: Loop)
    requires Stands(l) && l.status == X_OK && !l.jumped
    requires l.header != SOH && l.header != STX && l.header != CAN
    ensures Stands(Counted(l))
  {
    var r := Counted(l);
    RejectNaks(l.(rejections := l.rejections + 1));
    CountUp(l.errors, l.rejections);
    if r.status != X_OK {
      assert r.tx[|r.tx| - 2..] == [Ch(CAN), Ch(CAN)];
      assert !FlashFaulted(l.log) by {
        assert AllOk(l.log);
      }
    }
  }

  /** One iteration keeps a running session standing. */
  lemma StepStands(l: Loop)
    requires Stands(l) && Running(l)
    ensures Stands(Step(l))
  {
    HeaderStepStands(l);
    var read := HeaderStep(l);
    if read.header == SOH || read.header == STX {
      DataStepStands(read);
    } else if l.rx[0].RxOk? {
      OtherStepStands(read, true);
    }
  }

  /** The loop keeps a session standing. */
  lemma {:induction false} RunStands(l: Loop)
    requires Stands(l)
    ensures Stands(Run(l))
    decreases |l.rx|
  {
    if Running(l) {
      StepStands(l);
      RunStands(Step(l));
    }
  }

  /** What every session leaves behind, whatever the host sends and the
      flash reports: a well-formed log that is empty exactly when no frame
      was flashed; completion only after the ACK and both messages; giving
      up only with CAN CAN, after a flash fault with every rejection NAKed
      or at the third rejection, the last one answered with CAN CAN; any
      other end without a fault, below the limit, with every rejection
      NAKed; waiting only once the script is exhausted. */
  lemma SessionStands(rx: seq<RxResult>, results: seq<bool>, stack: seq<seq<byte>>)
    ensures var s := Session(rx, results, stack);
      && SessionLog(s.log, |Image(s.log)|)
      && (s.first <==> s.log != [])
      && (EndOf(s) == Completed <==> s.jumped)
      && (EndOf(s) == Completed ==> EndsWith(s.tx, [Ch(ACK), Str(MSG_UPDATED), Str(MSG_JUMPING)]))
      && (EndOf(s) == GaveUp ==> EndsWith(s.tx, [Ch(CAN), Ch(CAN)]))
      && (EndOf(s) == GaveUp ==>
            || (FlashFaulted(s.log) && s.rejections < X_MAX_ERRORS as int && NakCount(s.tx) == s.rejections)
            || (!FlashFaulted(s.log) && s.rejections == X_MAX_ERRORS as int
                && NakCount(s.tx) == s.rejections - 1))
      && (EndOf(s) != GaveUp ==>
            !FlashFaulted(s.log) && s.rejections < X_MAX_ERRORS as int && NakCount(s.tx) == s.rejections)
      && (EndOf(s) == Waiting ==> s.rx == [])
  {
    RunStands(Start(rx, results, stack));
    var s := Session(rx, results, stack);
    if EndOf(s) != GaveUp {
      assert AllOk(s.log);
    }
  }

  // ---------------------------------------------------------------------
  // Where the programmed bytes come from, and how a session ends

  /** `s` is what is left of `script` after its first entries were taken. */
  ghost predicate SuffixOf<T>(s: seq<T>, script: seq<T>) {
    |s| <= |script| && s == script[|script| - |s|..]
  }

  /** Taking one more entry leaves a suffix. */
  lemma RestSuffix<T>(s: seq<T>, script: seq<T>)
    requires SuffixOf(s, script)
    ensures SuffixOf(Rest(s), script)
  {
    if s != [] {
      assert script[|script| - |s|..][1..] == script[|script| - (|s| - 1)..];
    }
  }

  /** `data` is the payload of a frame of `size` bytes received from entry
      `j` of the receive script `rx` into a buffer that held the stack
      contents of entry `k` of `stack`, and that frame passed every check for
      packet number `n`. */
  predicate PassedAt(rx: seq<RxResult>, stack: seq<seq<byte>>, j: nat, k: nat, n: byte, size: nat,
                     data: seq<byte>)
  {
    && j < |rx| && k <= |stack| && (size == PACKET_128_SIZE || size == PACKET_1024_SIZE)
    && CheckErrors(n, ReceiveOk(rx[j..]), Frame(rx[j..], stack[k..], size), size) == X_OK
    && data == Payload(Frame(rx[j..], stack[k..], size), size)
  }

  /** Every write in `log` programs the payload of a frame of the scripts
      that passed every check. */
  ghost predicate FromScript(log: seq<FlashOp>, rx: seq<RxResult>, stack: seq<seq<byte>>) {
    forall i :: 0 <= i < |log| && log[i].Write? ==>
      exists j: nat, k: nat, n: byte, size: nat :: PassedAt(rx, stack, j, k, n, size, log[i].data)
  }

  /** Operations that write only `data`, the payload of a frame that passed,
      keep every write traced to the scripts. */
  lemma FromScriptAppend(log: seq<FlashOp>, ops: seq<FlashOp>, rx: seq<RxResult>, stack: seq<seq<byte>>,
                         j: nat, k: nat, n: byte, size: nat, data: seq<byte>)
    requires FromScript(log, rx, stack) && PassedAt(rx, stack, j, k, n, size, data)
    requires forall i :: 0 <= i < |ops| && ops[i].Write? ==> ops[i].data == data
    ensures FromScript(log + ops, rx, stack)
  {
    var all := log + ops;
    forall i | 0 <= i < |all| && all[i].Write?
      ensures exists j': nat, k': nat, n': byte, size': nat :: PassedAt(rx, stack, j', k', n', size', all[i].data)
    {
      if i < |log| {
        assert all[i] == log[i];
      } else {
        assert all[i] == ops[i - |log|];
        assert PassedAt(rx, stack, j, k, n, size, all[i].data);
      }
    }
  }

  /** A data step programs only the payload of the frame it read, and only
      when that frame passed every check for the expected number. */
  lemma DataStepTraced(l: Loop, rx: seq<RxResult>, stack: seq<seq<byte>>)
    requires l.header == SOH || l.header == STX
    requires SuffixOf(l.rx, rx) && SuffixOf(l.stack, stack) && FromScript(l.log, rx, stack)
    ensures var r := DataStep(l);
      SuffixOf(r.rx, rx) && SuffixOf(r.stack, stack) && FromScript(r.log, rx, stack)
  {
    DataStepOutcome(l);
    RestSuffix(l.rx, rx);
    RestSuffix(l.stack, stack);
    var size := PayloadSize(l.header);
    var frame := Frame(l.rx, l.stack, size);
    if CheckErrors(l.number, ReceiveOk(l.rx), frame, size) == X_OK {
      var payload := Payload(frame, size);
      var j := |rx| - |l.rx|;
      var k := |stack| - |l.stack|;
      assert rx[j..] == l.rx && stack[k..] == l.stack;
      assert PassedAt(rx, stack, j, k, l.number, size, payload);
      FromScriptAppend(l.log, CommitOps(l.cursor, payload, l.results), rx, stack, j, k, l.number, size, payload);
    }
  }

  /** One iteration keeps every write traced to the scripts. */
  lemma StepTraced(l: Loop, rx: seq<RxResult>, stack: seq<seq<byte>>)
    requires Running(l)
    requires SuffixOf(l.rx, rx) && SuffixOf(l.stack, stack) && FromScript(l.log, rx, stack)
    ensures var r := Step(l);
      SuffixOf(r.rx, rx) && SuffixOf(r.stack, stack) && FromScript(r.log, rx, stack)
  {
    var read := HeaderStep(l);
    RestSuffix(l.rx, rx);
    if read.header == SOH || read.header == STX {
      DataStepTraced(read, rx, stack);
    } else {
      assert Step(l) == OtherStep(read, l.rx[0].RxOk?);
    }
  }

  /** The loop keeps every write traced to the scripts. */
  lemma {:induction false} RunTraced(l: Loop, rx: seq<RxResult>, stack: seq<seq<byte>>)
    requires SuffixOf(l.rx, rx) && SuffixOf(l.stack, stack) && FromScript(l.log, rx, stack)
    ensures FromScript(Run(l).log, rx, stack)
    decreases |l.rx|
  {
    if Running(l) {
      StepTraced(l, rx, stack);
      RunTraced(Step(l), rx, stack);
    }
  }

  /** A session programs nothing but payloads the host sent: every write
      carries the payload of a frame of the receive script that passed every
      check, the packet number and the CRC included. */
  lemma SessionWritesFromScript(rx: seq<RxResult>, results: seq<bool>, stack: seq<seq<byte>>)
    ensures FromScript(Session(rx, results, stack).log, rx, stack)
  {
    assert rx[|rx| - |rx|..] == rx && stack[|stack| - |stack|..] == stack;
    RunTraced(Start(rx, results, stack), rx, stack);
  }

  /** One iteration passes control to the application only on an EOT
      header. */
  lemma StepJumps(l: Loop)
    requires Running(l)
    ensures Step(l).jumped ==> Step(l).header == EOT
  {
    var read := HeaderStep(l);
    if read.header == SOH || read.header == STX {
      assert DataStep(read).jumped == read.jumped;
    } else {
      assert Step(l) == OtherStep(read, l.rx[0].RxOk?);
    }
  }

  /** The loop passes control to the application only on an EOT header. */
  lemma {:induction false} RunJumps(l: Loop)
    requires l.jumped ==> l.header == EOT
    ensures Run(l).jumped ==> Run(l).header == EOT
    decreases |l.rx|
  {
    if Running(l) {
      StepJumps(l);
      RunJumps(Step(l));
    }
  }

  /** A session completes only after an EOT header was read, and is
      cancelled only when the last header read was CAN. */
  lemma SessionLastHeader(rx: seq<RxResult>, results: seq<bool>, stack: seq<seq<byte>>)
    ensures var s := Session(rx, results, stack);
      && (EndOf(s) == Completed ==> s.header == EOT)
      && (EndOf(s) == Cancelled ==> s.header == CAN && s.status == X_ERROR && !s.jumped)
  {
    RunJumps(Start(rx, results, stack));
    RunStands(Start(rx, results, stack));
  }

  // ---------------------------------------------------------------------
  // The receiver against the loop state

  /** The statics `st`, the loop's locals `errors`, `status` and `header`,
      and the board's jump flag, flash log, transmissions and scripts hold
      the loop state `l` of a session whose flash log starts after `log0`
      and whose transmissions start after `tx0`; the statics are consistent
      and the bytes accepted are those of the image. */
  predicate Holds(l: Loop, log0: seq<FlashOp>, tx0: seq<TxItem>, st: Statics,
                  errors: bv8, status: Status, header: byte, jumped: bool,
                  log: seq<FlashOp>, tx: seq<TxItem>, rx: seq<RxResult>, results: seq<bool>,
                  stack: seq<seq<byte>>)
  {
    && Consistent(st.number, st.cursor, st.bytes, st.packets) && st.bytes == |Image(l.log)|
    && st.number == l.number && st.cursor == l.cursor && st.first == l.first
    && errors == l.errors && status == l.status && header == l.header && jumped == l.jumped
    && log == log0 + l.log && tx == tx0 + l.tx
    && rx == l.rx && results == l.results && stack == l.stack
  }

  /** A running data step from `l` whose frame failed a check, was left
      unflashed and was answered by the error handler, holds the judged
      state. */
  lemma RejectedHolds(l: Loop, payload: seq<byte>, log0: seq<FlashOp>, tx0: seq<TxItem>, st: Statics,
                      errors: bv8, status: Status, jumped: bool, tx: seq<TxItem>)
    requires Holds(l, log0, tx0, st, l.errors, l.status, l.header, jumped, log0 + l.log, tx0 + l.tx,
                   l.rx, l.results, l.stack)
    requires errors == l.errors + 1 && (status == X_OK <==> errors < X_MAX_ERRORS)
    requires status != X_OK ==> status == X_ERROR
    requires tx == tx0 + l.tx + (if status == X_OK then [Ch(NAK)] else [Ch(CAN), Ch(CAN)])
    ensures Holds(Judge(Consumed(l), false, payload), log0, tx0, st, errors, status, l.header, jumped,
                  log0 + l.log, tx, Rest(l.rx), l.results, Rest(l.stack))
  {
    JudgeRejected(Consumed(l), payload);
    var r := Judge(Consumed(l), false, payload);
    assert r.tx == l.tx + (if status == X_OK then [Ch(NAK)] else [Ch(CAN), Ch(CAN)]);
    assert tx == tx0 + r.tx;
  }

  /** A running data step from `l` whose frame passed, was programmed and
      was ACKed, holds the judged state. */
  lemma FlashedHolds(l: Loop, payload: seq<byte>, packetStatus: Status, log0: seq<FlashOp>, tx0: seq<TxItem>,
                     st0: Statics, st: Statics, errors: bv8, status: Status, jumped: bool,
                     log: seq<FlashOp>, tx: seq<TxItem>, results: seq<bool>)
    requires AllOk(CommitOps(l.cursor, payload, l.results)) && l.status == X_OK
    requires Holds(l, log0, tx0, st0, l.errors, l.status, l.header, jumped, log0 + l.log, tx0 + l.tx,
                   l.rx, l.results, l.stack)
    requires Commits(payload, packetStatus, st0, l.results, log0 + l.log, st, log, results)
    requires Consistent(st.number, st.cursor, st.bytes, st.packets)
    requires packetStatus == X_OK ==> status == X_OK && errors == l.errors && tx == tx0 + l.tx + [Ch(ACK)]
    ensures Holds(Judge(Consumed(l), true, payload), log0, tx0, st, errors, status, l.header, jumped,
                  log, tx, Rest(l.rx), results, Rest(l.stack))
  {
    JudgeFlashed(Consumed(l), payload);
    var r := Judge(Consumed(l), true, payload);
    var ops := CommitOps(l.cursor, payload, l.results);
    assert log0 + l.log + ops == log0 + r.log;
    assert tx == tx0 + r.tx;
  }

  /** A running data step from `l` whose frame passed but whose programming
      faulted, answered with CAN CAN, holds the judged state. */
  lemma FaultedHolds(l: Loop, payload: seq<byte>, packetStatus: Status, log0: seq<FlashOp>, tx0: seq<TxItem>,
                     st0: Statics, st: Statics, errors: bv8, status: Status, jumped: bool,
                     log: seq<FlashOp>, tx: seq<TxItem>, results: seq<bool>)
    requires !AllOk(CommitOps(l.cursor, payload, l.results))
    requires Holds(l, log0, tx0, st0, l.errors, l.status, l.header, jumped, log0 + l.log, tx0 + l.tx,
                   l.rx, l.results, l.stack)
    requires Commits(payload, packetStatus, st0, l.results, log0 + l.log, st, log, results)
    requires Consistent(st.number, st.cursor, st.bytes, st.packets)
    requires packetStatus == X_ERROR_FLASH ==>
      status == X_ERROR && errors == X_MAX_ERRORS + 1 && tx == tx0 + l.tx + [Ch(CAN), Ch(CAN)]
    ensures Holds(Judge(Consumed(l), true, payload), log0, tx0, st, errors, status, l.header, jumped,
                  log, tx, Rest(l.rx), results, Rest(l.stack))
  {
    JudgeFaulted(Consumed(l), payload);
    var r := Judge(Consumed(l), true, payload);
    var ops := CommitOps(l.cursor, payload, l.results);
    assert log0 + l.log + ops == log0 + r.log;
    assert tx == tx0 + r.tx;
  }

  /** Lines 76-91 of xmodem_receive: the reply to a frame handled with
      `packetStatus`, from the error counter `errorNumber` and the
      transmissions `tx0` to the loop's `status` and counter `errors` and
      the transmissions `tx`. A flashed frame is ACKed; on a flash fault the
      counter is forced to the limit so that the error handler answers CAN
      CAN and gives up; any other failure is one more error, answered with
      NAK below the limit and with CAN CAN at it. */
  predicate Responded(packetStatus: Status, errorNumber: bv8, tx0: seq<TxItem>,
                      status: Status, errors: bv8, tx: seq<TxItem>)
  {
    && (packetStatus == X_OK ==> status == X_OK && errors == errorNumber && tx == tx0 + [Ch(ACK)])
    && (packetStatus == X_ERROR_FLASH ==>
          status == X_ERROR && errors == X_MAX_ERRORS + 1 && tx == tx0 + [Ch(CAN), Ch(CAN)])
    && (packetStatus != X_OK && packetStatus != X_ERROR_FLASH ==>
          && errors == errorNumber + 1 && (status == X_OK <==> errors < X_MAX_ERRORS)
          && (status != X_OK ==> status == X_ERROR)
          && tx == tx0 + (if status == X_OK then [Ch(NAK)] else [Ch(CAN), Ch(CAN)]))
  }

  /** What xmodem_handle_packet did to the frame after a data header in
      loop state `l`, from the statics `st0` to the statics `st`, the flash
      log `log` and the flash results `results`: a frame that failed a check
      (`passed` false) gets a status that is neither X_OK nor X_ERROR_FLASH
      and changes nothing; one that passed has its `payload` committed. The
      statics stay consistent. */
  predicate Handled(l: Loop, log0: seq<FlashOp>, passed: bool, payload: seq<byte>, packetStatus: Status,
                    st0: Statics, st: Statics, log: seq<FlashOp>, results: seq<bool>)
  {
    && (!passed ==>
          && packetStatus != X_OK && packetStatus != X_ERROR_FLASH
          && st == st0 && log == log0 + l.log && results == l.results)
    && (passed ==> Commits(payload, packetStatus, st0, l.results, log0 + l.log, st, log, results))
    && Consistent(st.number, st.cursor, st.bytes, st.packets)
  }

  /** A running data step from `l`, with the frame handled by
      xmodem_handle_packet as `passed` and `packetStatus` say and answered
      as lines 76-91 of xmodem_receive say, holds the judged state. */
  lemma DataHolds(l: Loop, passed: bool, payload: seq<byte>, packetStatus: Status,
                  log0: seq<FlashOp>, tx0: seq<TxItem>, st0: Statics, st: Statics, errors: bv8, status: Status,
                  header: byte, jumped: bool, log: seq<FlashOp>, tx: seq<TxItem>, rx: seq<RxResult>,
                  results: seq<bool>, stack: seq<seq<byte>>)
    requires l.status == X_OK && header == l.header && rx == Rest(l.rx) && stack == Rest(l.stack)
    requires Holds(l, log0, tx0, st0, l.errors, l.status, l.header, jumped, log0 + l.log, tx0 + l.tx,
                   l.rx, l.results, l.stack)
    requires Handled(l, log0, passed, payload, packetStatus, st0, st, log, results)
    requires Responded(packetStatus, l.errors, tx0 + l.tx, status, errors, tx)
    ensures Holds(Judge(Consumed(l), passed, payload), log0, tx0, st, errors, status, header, jumped,
                  log, tx, rx, results, stack)
  {
    if !passed {
      RejectedHolds(l, payload, log0, tx0, st0, errors, status, jumped, tx);
    } else if AllOk(CommitOps(l.cursor, payload, l.results)) {
      FlashedHolds(l, payload, packetStatus, log0, tx0, st0, st, errors, status, jumped, log, tx, results);
    } else {
      FaultedHolds(l, payload, packetStatus, log0, tx0, st0, st, errors, status, jumped, log, tx, results);
    }
  }

  /** Any other header (or none, `ok` false), answered as lines 93-111 of
      xmodem_receive say, holds the state `OtherStep` gives. */
  lemma OtherHolds(l: Loop, ok: bool, log0: seq<FlashOp>, tx0: seq<TxItem>, st: Statics,
                   status: Status, errors: bv8, counted: bool, jumped: bool,
                   log: seq<FlashOp>, tx: seq<TxItem>, rx: seq<RxResult>, results: seq<bool>,
                   stack: seq<seq<byte>>)
    requires l.header != SOH && l.header != STX && !l.jumped
    requires Holds(l, log0, tx0, st, l.errors, l.status, l.header, false, log, tx0 + l.tx, rx, results, stack)
    requires jumped <==> l.header == EOT
    requires l.header == EOT ==>
      status == l.status && errors == l.errors && !counted
      && tx == tx0 + l.tx + [Ch(ACK), Str(MSG_UPDATED), Str(MSG_JUMPING)]
    requires l.header == CAN ==> status == X_ERROR && errors == l.errors && !counted && tx == tx0 + l.tx
    requires l.header != EOT && l.header != CAN && ok ==>
      counted && errors == l.errors + 1 && (status == X_OK <==> errors < X_MAX_ERRORS)
      && (status != X_OK ==> status == X_ERROR)
      && tx == tx0 + l.tx + (if status == X_OK then [Ch(NAK)] else [Ch(CAN), Ch(CAN)])
    requires l.header != EOT && l.header != CAN && !ok ==>
      status == l.status && errors == l.errors && !counted && tx == tx0 + l.tx
    ensures Holds(OtherStep(l, ok), log0, tx0, st, errors, status, l.header, jumped, log, tx, rx, results, stack)
  {
    if l.header == EOT {
      assert tx0 + l.tx + [Ch(ACK), Str(MSG_UPDATED), Str(MSG_JUMPING)]
          == tx0 + (l.tx + [Ch(ACK), Str(MSG_UPDATED), Str(MSG_JUMPING)]);
    } else if l.header != CAN && ok {
      assert OtherStep(l, ok) == Counted(l);
      if status == X_OK {
        assert tx0 + l.tx + [Ch(NAK)] == tx0 + (l.tx + [Ch(NAK)]);
      } else {
        assert tx0 + l.tx + [Ch(CAN), Ch(CAN)] == tx0 + (l.tx + [Ch(CAN), Ch(CAN)]);
      }
    }
  }

  /** The end of a session, from the loop state it stopped in: what
      `ReceiveSession` promises, over the scripts `rx0`, `results0` and
      `stack0`, the flash log `log0` and the transmissions `tx0` it started
      from, and the statics, locals and board it left. */
  lemma SessionReported(rx0: seq<RxResult>, results0: seq<bool>, stack0: seq<seq<byte>>,
                        log0: seq<FlashOp>, tx0: seq<TxItem>, st: Statics,
                        errors: bv8, status: Status, header: byte, jumped: bool,
                        log: seq<FlashOp>, tx: seq<TxItem>, rx: seq<RxResult>, results: seq<bool>,
                        stack: seq<seq<byte>>, end: SessionEnd, rejections: nat)
    requires Holds(Run(Start(rx0, results0, stack0)), log0, tx0, st, errors, status, header, jumped,
                   log, tx, rx, results, stack)
    requires end == (if jumped then Completed else if status == X_OK then Waiting
                     else if header == CAN then Cancelled else GaveUp)
    requires rejections == Run(Start(rx0, results0, stack0)).rejections
    ensures var s := Session(rx0, results0, stack0);
      && end == EndOf(s) && rejections == s.rejections
      && log == log0 + s.log && tx == tx0 + s.tx
      && rx == s.rx && results == s.results && stack == s.stack
      && jumped == s.jumped
      && st.number == s.number && st.cursor == s.cursor && st.first == s.first
    ensures Consistent(st.number, st.cursor, st.bytes, st.packets)
    ensures |log| >= |log0| && log[..|log0|] == log0
    ensures SessionLog(log[|log0|..], st.bytes)
    ensures st.first <==> log[|log0|..] != []
    ensures end == Completed <==> jumped
    ensures end == Completed ==> EndsWith(tx, [Ch(ACK), Str(MSG_UPDATED), Str(MSG_JUMPING)])
    ensures end == GaveUp ==> EndsWith(tx, [Ch(CAN), Ch(CAN)])
    ensures end == GaveUp ==>
      || (&& FlashFaulted(log[|log0|..])
          && rejections < X_MAX_ERRORS as int
          && NakCount(tx) == NakCount(tx0) + rejections)
      || (&& !FlashFaulted(log[|log0|..])
          && rejections == X_MAX_ERRORS as int
          && NakCount(tx) == NakCount(tx0) + rejections - 1)
    ensures end != GaveUp ==>
      && !FlashFaulted(log[|log0|..])
      && rejections < X_MAX_ERRORS as int
      && NakCount(tx) == NakCount(tx0) + rejections
    ensures end == Waiting ==> rx == []
    ensures rx0 != [] ==> |rx| < |rx0|
  {
    var s := Session(rx0, results0, stack0);
    SessionStands(rx0, results0, stack0);
    NakCountAppend(tx0, s.tx);
    assert log[|log0|..] == s.log;
  }

  class Receiver {
    /** xmodem_packet_number: the number the next frame must carry. */
    var packetNumber: byte
    /** xmodem_actual_flash_address: where the next payload is written. */
    var flashAddress: nat
    /** x_first_packet_received: set once a frame has reached the flash;
        from then on timeouts count as errors instead of prompting with 'C'. */
    var firstPacketReceived: bool
    /** Payload bytes and frames accepted since the session started. */
    ghost var acceptedBytes: nat
    ghost var acceptedPackets: nat

    /** The values the statics start with, before any session. */
    constructor ()
      ensures packetNumber == 1 && flashAddress == 0 && !firstPacketReceived
      ensures acceptedBytes == 0 && acceptedPackets == 0
    {
      packetNumber := 1;
      flashAddress := 0;
      firstPacketReceived := false;
      acceptedBytes := 0;
      acceptedPackets := 0;
    }

    /** The cursor is the application start advanced by the accepted bytes,
        which come in whole 128-byte blocks, and the expected number is one
        more than the frames accepted, modulo 256. This is an invariant of a
        running session, not of the class: the statics start with the cursor
        at 0, and only the start of xmodem_receive establishes it. */
    ghost predicate Valid()
      reads this
    {
      Consistent(packetNumber, flashAddress, acceptedBytes, acceptedPackets)
    }

    /** The statics as they stand. */
    ghost function Snapshot(): Statics
      reads this
    {
      Statics(packetNumber, flashAddress, firstPacketReceived, acceptedBytes, acceptedPackets)
    }

    /** The expected number, the cursor and the accepted bytes and frames. */
    ghost predicate At(number: byte, address: nat, bytes: nat, packets: nat)
      reads this
    {
      packetNumber == number && flashAddress == address && acceptedBytes == bytes && acceptedPackets == packets
    }

    /** The four checks of xmodem_handle_packet (lines 187-207), each adding
        its bit to the status: UART status, packet number, number plus
        complement, CRC. */
    method CheckFrame(data: array<byte>, size: nat, commOk: bool, crcCalculated: bv16, crcReceived: bv16)
      returns (status: Status)
      requires FrameLength(size) <= data.Length
      requires crcCalculated == Crc16(Payload(data[..], size))
      requires crcReceived == ReceivedCrc(data[..], FrameLength(size))
      ensures status == CheckErrors(packetNumber, commOk, data[..], size)
    {
      status := X_OK;
      if !commOk {
        status := status | X_ERROR_UART;
      }
      if packetNumber != data[NUMBER_INDEX] {
        status := status | X_ERROR_NUMBER;
      }
      if 255 != data[NUMBER_INDEX] as int + data[COMPLEMENT_INDEX] as int {
        status := status | X_ERROR_NUMBER;
      }
      if crcCalculated != crcReceived {
        status := status | X_ERROR_CRC;
      }
    }

    /** The receiver and the board are as `Commits` says after committing
        `payload` from the statics `before`, the flash results `results` and
        the flash log `log`. */
    ghost predicate Committed(hal: Board, payload: seq<byte>, status: Status, before: Statics,
                              results: seq<bool>, log: seq<FlashOp>)
      reads this, hal
    {
      Commits(payload, status, before, results, log, Snapshot(), hal.flashLog, hal.flashResults)
    }

    /** The flashing half of xmodem_handle_packet (lines 209-235), for a
        frame that passed every check: program it, and on success advance
        the packet number and the cursor. */
    method Commit(hal: Board, payload: seq<byte>) returns (status: Status)
      requires Valid()
      requires |payload| == PACKET_128_SIZE || |payload| == PACKET_1024_SIZE
      modifies this, hal`flashResults, hal`flashLog
      ensures Valid()
      ensures Committed(hal, payload, status, old(Snapshot()), old(hal.flashResults), old(hal.flashLog))
    {
      status := Program(hal, payload);
      if status == X_OK {
        Advance(|payload|);
      }
    }

    /** Lines 209-229 of xmodem_handle_packet: erase the application area
        if the cursor is at its start (and remember that a first frame
        arrived), then program the payload at the cursor unless the erase
        failed. */
    method Program(hal: Board, payload: seq<byte>) returns (status: Status)
      modifies this`firstPacketReceived, hal`flashResults, hal`flashLog
      ensures hal.flashLog == old(hal.flashLog) + CommitOps(flashAddress, payload, old(hal.flashResults))
      ensures hal.flashResults
        == Drop(old(hal.flashResults), |CommitOps(flashAddress, payload, old(hal.flashResults))|)
      ensures firstPacketReceived
        == (old(firstPacketReceived) || flashAddress == FLASH_APP_START_ADDRESS)
      ensures status == X_OK <==> AllOk(CommitOps(flashAddress, payload, old(hal.flashResults)))
      ensures status != X_OK ==> status == X_ERROR_FLASH
    {
      CommitOpsOk(flashAddress, payload, hal.flashResults);
      ghost var results := hal.flashResults;
      ghost var calls := 0;
      DropNext(results, 0);
      status := X_OK;
      if flashAddress == FLASH_APP_START_ADDRESS {
        var ok := hal.FlashErase(FLASH_APP_START_ADDRESS);
        calls := 1;
        if !ok {
          status := status | X_ERROR_FLASH;
        }
        firstPacketReceived := true;
      }
      if status == X_OK {
        DropNext(results, calls);
        var ok := hal.FlashWrite(flashAddress, payload, |payload| / 4);
        calls := calls + 1;
        if !ok {
          status := status | X_ERROR_FLASH;
        }
      }
      assert hal.flashResults == Drop(results, calls);
    }

    /** Lines 231-235 of xmodem_handle_packet: after an accepted frame the
        packet number counts on (modulo 256) and the cursor moves past the
        payload (modulo 2^32). */
    method Advance(size: nat)
      requires Valid()
      requires size == PACKET_128_SIZE || size == PACKET_1024_SIZE
      modifies this`packetNumber, this`flashAddress, this`acceptedBytes, this`acceptedPackets
      ensures Valid()
      ensures At(NextNumber(old(packetNumber)), (old(flashAddress) + size) % ADDRESS_SPACE,
                 old(acceptedBytes) + size, old(acceptedPackets) + 1)
    {
      AdvanceConsistent(packetNumber, flashAddress, acceptedBytes, acceptedPackets, size);
      packetNumber, flashAddress := NextNumber(packetNumber), (flashAddress + size) % ADDRESS_SPACE;
      acceptedBytes, acceptedPackets := acceptedBytes + size, acceptedPackets + 1;
    }

    /** xmodem_handle_packet: read the frame that follows `header`, check it,
        and flash it if it passes. `frame` is the receive buffer after the
        read (what the driver delivered over what the uninitialised local
        held); `passed` says whether the frame passed every check. */
    method HandlePacket(hal: Board, header: byte)
      returns (status: Status, ghost frame: seq<byte>, ghost passed: bool)
      requires Valid()
      modifies this, hal`rx, hal`stack, hal`flashResults, hal`flashLog
      ensures Valid()
      ensures hal.rx == Rest(old(hal.rx)) && hal.stack == Rest(old(hal.stack))
      ensures frame == Frame(old(hal.rx), old(hal.stack), PayloadSize(header))
      ensures passed <==>
        PayloadSize(header) != 0
        && CheckErrors(old(packetNumber), ReceiveOk(old(hal.rx)), frame, PayloadSize(header)) == X_OK
      // Not a data header: rejected.
      ensures PayloadSize(header) == 0 ==> status == X_ERROR
      // A frame that fails a check: the accumulated bits.
      ensures PayloadSize(header) != 0 && !passed ==>
        status == CheckErrors(old(packetNumber), ReceiveOk(old(hal.rx)), frame, PayloadSize(header))
      // Either way nothing else changes.
      ensures !passed ==>
        && status != X_OK && status != X_ERROR_FLASH
        && hal.flashLog == old(hal.flashLog) && hal.flashResults == old(hal.flashResults)
        && unchanged(this)
      // A frame that passes: flashed at the cursor, accepted if the flash agrees.
      ensures passed ==>
        Committed(hal, Payload(frame, PayloadSize(header)), status, old(Snapshot()), old(hal.flashResults),
                  old(hal.flashLog))
    {
      var size, receivedData, commOk, crcCalculated, crcReceived;
      status, size, receivedData, commOk, crcCalculated, crcReceived := ReadFrame(hal, header);
      frame := receivedData[..];
      passed := false;
      if status == X_OK {
        status := CheckFrame(receivedData, size, commOk, crcCalculated, crcReceived);
        if status == X_OK {
          passed := true;
          status := Commit(hal, receivedData[DATA_INDEX..DATA_INDEX + size]);
        }
      }
    }

    /** The reading half of xmodem_handle_packet (lines 160-184): the payload
        size the header announces (X_ERROR for any other header), one
        receive of number, complement, payload and CRC into the 1028-byte
        local buffer, the CRC from the trailer and the CRC computed over the
        payload. */
    method ReadFrame(hal: Board, header: byte)
      returns (status: Status, size: nat, data: array<byte>, commOk: bool,
               crcCalculated: bv16, crcReceived: bv16)
      modifies hal`rx, hal`stack
      ensures fresh(data) && data.Length == BUFFER_SIZE
      ensures size == PayloadSize(header)
      ensures status == if size == 0 then X_ERROR else X_OK
      ensures hal.rx == Rest(old(hal.rx)) && hal.stack == Rest(old(hal.stack))
      ensures commOk == ReceiveOk(old(hal.rx))
      ensures data[..] == Frame(old(hal.rx), old(hal.stack), size)
      ensures crcCalculated == Crc16(Payload(data[..], size))
      ensures crcReceived == ReceivedCrc(data[..], FrameLength(size))
    {
      status := X_OK;
      size := 0;
      if header == SOH {
        size := PACKET_128_SIZE;
      } else if header == STX {
        size := PACKET_1024_SIZE;
      } else {
        status := X_ERROR;
      }
      var length := size + DATA_INDEX + CRC_SIZE;
      data := hal.Local(BUFFER_SIZE);
      commOk := hal.Receive(data, length);
      crcReceived := ReceivedCrc(data[..], length);
      crcCalculated := CalcCrc(data, DATA_INDEX, size);
      assert data[DATA_INDEX..DATA_INDEX + size] == Payload(data[..], size);
    }

    /** Lines 76-91 of xmodem_receive, the reply to a handled frame: ACK
        when it was flashed; on a flash fault the counter is forced to the
        limit so that the error handler gives up; any other failure is
        counted as one error. */
    method Respond(hal: Board, packetStatus: Status, errorNumber: bv8) returns (status: Status, errors: bv8)
      modifies hal`tx
      ensures Responded(packetStatus, errorNumber, old(hal.tx), status, errors, hal.tx)
      ensures NakCount(hal.tx) == NakCount(old(hal.tx))
        + (if packetStatus != X_OK && packetStatus != X_ERROR_FLASH && status == X_OK then 1 else 0)
    {
      if packetStatus == X_OK {
        NakCountSnoc(hal.tx, Ch(ACK));
        hal.TransmitCh(ACK);
        status := X_OK;
        errors := errorNumber;
      } else if packetStatus == X_ERROR_FLASH {
        errors := X_MAX_ERRORS;
        status, errors := ErrorHandler(hal, errors, X_MAX_ERRORS);
      } else {
        status, errors := ErrorHandler(hal, errorNumber, X_MAX_ERRORS);
      }
    }

    /** Lines 45-66 of xmodem_receive: read a header byte (0 when the read
        fails); on a failed read prompt the host with 'C' while no frame has
        reached the flash yet, and count an error after that. */
    method AwaitHeader(hal: Board, errorNumber: bv8)
      returns (header: byte, commOk: bool, status: Status, errors: bv8, ghost counted: bool)
      modifies hal`rx, hal`tx
      ensures hal.rx == Rest(old(hal.rx))
      ensures commOk == ReceiveOk(old(hal.rx))
      ensures header == if commOk && old(hal.rx)[0].data != [] then old(hal.rx)[0].data[0] else 0
      ensures commOk ==> status == X_OK && errors == errorNumber && !counted && hal.tx == old(hal.tx)
      ensures !commOk && !firstPacketReceived ==>
        status == X_OK && errors == errorNumber && !counted && hal.tx == old(hal.tx) + [Ch(C)]
      ensures !commOk && firstPacketReceived ==>
        counted && errors == errorNumber + 1 && (status == X_OK <==> errors < X_MAX_ERRORS)
        && (status != X_OK ==> status == X_ERROR)
        && hal.tx == old(hal.tx) + (if status == X_OK then [Ch(NAK)] else [Ch(CAN), Ch(CAN)])
      ensures NakCount(hal.tx) == NakCount(old(hal.tx)) + (if counted && status == X_OK then 1 else 0)
    {
      status := X_OK;
      errors := errorNumber;
      counted := false;
      var headerBuf := new byte[1](_ => 0);
      commOk := hal.Receive(headerBuf, 1);
      header := headerBuf[0];
      if !commOk && !firstPacketReceived {
        NakCountSnoc(hal.tx, Ch(C));
        hal.TransmitCh(C);
      } else if !commOk && firstPacketReceived {
        status, errors := ErrorHandler(hal, errors, X_MAX_ERRORS);
        counted := true;
      }
    }

    /** Lines 93-111 of xmodem_receive, the headers other than SOH and STX:
        EOT acknowledges, reports and jumps to the application; CAN stops the
        session without a reply; any other byte that was actually read counts
        as an error (after a failed read the header is 0 and nothing happens). */
    method OtherHeader(hal: Board, header: byte, commOk: bool, status0: Status, errorNumber: bv8)
      returns (status: Status, errors: bv8, ghost counted: bool)
      requires header != SOH && header != STX && !hal.jumped
      modifies hal`tx, hal`jumped
      ensures hal.jumped <==> header == EOT
      ensures header == EOT ==>
        status == status0 && errors == errorNumber && !counted
        && hal.tx == old(hal.tx) + [Ch(ACK), Str(MSG_UPDATED), Str(MSG_JUMPING)]
      ensures header == CAN ==> status == X_ERROR && errors == errorNumber && !counted && hal.tx == old(hal.tx)
      ensures header != EOT && header != CAN && commOk ==>
        counted && errors == errorNumber + 1 && (status == X_OK <==> errors < X_MAX_ERRORS)
        && (status != X_OK ==> status == X_ERROR)
        && hal.tx == old(hal.tx) + (if status == X_OK then [Ch(NAK)] else [Ch(CAN), Ch(CAN)])
      ensures header != EOT && header != CAN && !commOk ==>
        status == status0 && errors == errorNumber && !counted && hal.tx == old(hal.tx)
      ensures NakCount(hal.tx) == NakCount(old(hal.tx)) + (if counted && status == X_OK then 1 else 0)
    {
      status := status0;
      errors := errorNumber;
      counted := false;
      if header == EOT {
        NakCountSnoc(hal.tx, Ch(ACK));
        hal.TransmitCh(ACK);
        NakCountSnoc(hal.tx, Str(MSG_UPDATED));
        hal.TransmitStr(MSG_UPDATED);
        NakCountSnoc(hal.tx, Str(MSG_JUMPING));
        hal.TransmitStr(MSG_JUMPING);
        hal.JumpToApp();
        assert hal.tx == old(hal.tx) + [Ch(ACK), Str(MSG_UPDATED), Str(MSG_JUMPING)];
      } else if header == CAN {
        status := X_ERROR;
      } else if commOk {
        status, errors := ErrorHandler(hal, errors, X_MAX_ERRORS);
        counted := true;
      }
    }

    /** The receiver and the board hold the loop state `l` of a session
        whose flash log starts after `log0` and whose transmissions start
        after `tx0`; `errors`, `status` and `header` are the loop's locals.
        The ghost count of accepted bytes is the length of the image. */
    ghost predicate Matches(l: Loop, hal: Board, log0: seq<FlashOp>, tx0: seq<TxItem>,
                            errors: bv8, status: Status, header: byte)
      reads this, hal
    {
      Holds(l, log0, tx0, Snapshot(), errors, status, header, hal.jumped, hal.flashLog, hal.tx, hal.rx,
            hal.flashResults, hal.stack)
    }

    /** One iteration of the loop of xmodem_receive (lines 43-112): wait for
        a header, then act on it, as `Step` says. */
    method Round(hal: Board, ghost l: Loop, ghost log0: seq<FlashOp>, ghost tx0: seq<TxItem>,
                 errorNumber: bv8)
      returns (header: byte, status: Status, errors: bv8)
      requires Matches(l, hal, log0, tx0, errorNumber, X_OK, l.header) && Running(l)
      modifies this, hal`rx, hal`stack, hal`tx, hal`flashResults, hal`flashLog, hal`jumped
      ensures Matches(Step(l), hal, log0, tx0, errors, status, header)
      ensures |hal.rx| < |old(hal.rx)|
    {
      var commOk;
      header, commOk, status, errors := HeaderRound(hal, l, log0, tx0, errorNumber);
      ghost var read := HeaderStep(l);
      if header == SOH || header == STX {
        ghost var passed, payload;
        status, errors, passed, payload := DataRound(hal, read, log0, tx0, header, errors);
        DataStepJudged(read, passed, payload);
      } else {
        status, errors := OtherRound(hal, read, log0, tx0, header, commOk, status, errors);
      }
    }

    /** `Round` up to the header: it is read, or a failed read is answered,
        as `HeaderStep` says. */
    method HeaderRound(hal: Board, ghost l: Loop, ghost log0: seq<FlashOp>, ghost tx0: seq<TxItem>,
                       errorNumber: bv8)
      returns (header: byte, commOk: bool, status: Status, errors: bv8)
      requires Matches(l, hal, log0, tx0, errorNumber, X_OK, l.header) && Running(l)
      modifies hal`rx, hal`tx
      ensures Matches(HeaderStep(l), hal, log0, tx0, errors, status, header)
      ensures commOk == ReceiveOk(old(hal.rx))
    {
      ghost var counted;
      header, commOk, status, errors, counted := AwaitHeader(hal, errorNumber);
      assert hal.tx == tx0 + HeaderStep(l).tx;
    }

    /** The SOH/STX case of the loop of xmodem_receive (lines 73-92), as
        `DataStep` says: the frame is handled by xmodem_handle_packet and
        answered by `Respond`. */
    method DataRound(hal: Board, ghost l: Loop, ghost log0: seq<FlashOp>, ghost tx0: seq<TxItem>,
                     header: byte, errorNumber: bv8)
      returns (status: Status, errors: bv8, ghost passed: bool, ghost payload: seq<byte>)
      requires Matches(l, hal, log0, tx0, errorNumber, X_OK, header)
      requires header == SOH || header == STX
      modifies this, hal`rx, hal`stack, hal`tx, hal`flashResults, hal`flashLog
      ensures var size := PayloadSize(header);
        var frame := Frame(l.rx, l.stack, size);
        && passed == (CheckErrors(l.number, ReceiveOk(l.rx), frame, size) == X_OK)
        && payload == Payload(frame, size)
      ensures Matches(Judge(Consumed(l), passed, payload),
                      hal, log0, tx0, errors, status, header)
    {
      ghost var st0 := Snapshot();
      assert Holds(l, log0, tx0, st0, l.errors, l.status, l.header, hal.jumped, log0 + l.log, tx0 + l.tx,
                   l.rx, l.results, l.stack);
      var packetStatus;
      ghost var frame;
      packetStatus, frame, passed := HandlePacket(hal, header);
      payload := Payload(frame, PayloadSize(header));
      status, errors := Answer(hal, l, log0, tx0, header, errorNumber, packetStatus, passed, payload, st0);
    }

    /** The reply half of `DataRound`: `Respond` to the frame that
        xmodem_handle_packet handled as `Handled` says. */
    method Answer(hal: Board, ghost l: Loop, ghost log0: seq<FlashOp>, ghost tx0: seq<TxItem>,
                  header: byte, errorNumber: bv8, packetStatus: Status,
                  ghost passed: bool, ghost payload: seq<byte>, ghost st0: Statics)
      returns (status: Status, errors: bv8)
      requires l.status == X_OK && header == l.header && errorNumber == l.errors
      requires Holds(l, log0, tx0, st0, l.errors, l.status, l.header, hal.jumped, log0 + l.log, tx0 + l.tx,
                     l.rx, l.results, l.stack)
      requires Handled(l, log0, passed, payload, packetStatus, st0, Snapshot(), hal.flashLog, hal.flashResults)
      requires hal.tx == tx0 + l.tx && hal.rx == Rest(l.rx) && hal.stack == Rest(l.stack)
      modifies hal`tx
      ensures Matches(Judge(Consumed(l), passed, payload), hal, log0, tx0, errors, status, header)
    {
      status, errors := Respond(hal, packetStatus, errorNumber);
      DataHolds(l, passed, payload, packetStatus, log0, tx0, st0, Snapshot(), errors, status, header, hal.jumped,
                hal.flashLog, hal.tx, hal.rx, hal.flashResults, hal.stack);
    }

    /** `Round` after any other header (or none), as `OtherStep` says. */
    method OtherRound(hal: Board, ghost l: Loop, ghost log0: seq<FlashOp>, ghost tx0: seq<TxItem>,
                      header: byte, commOk: bool, status0: Status, errorNumber: bv8)
      returns (status: Status, errors: bv8)
      requires Matches(l, hal, log0, tx0, errorNumber, status0, header)
      requires header != SOH && header != STX && !hal.jumped
      modifies hal`tx, hal`jumped
      ensures Matches(OtherStep(l, commOk), hal, log0, tx0, errors, status, header)
    {
      ghost var counted;
      status, errors, counted := OtherHeader(hal, header, commOk, status0, errorNumber);
      OtherHolds(l, commOk, log0, tx0, Snapshot(), status, errors, counted, hal.jumped,
                 hal.flashLog, hal.tx, hal.rx, hal.flashResults, hal.stack);
    }

    /** xmodem_receive: one session, as `Session` says over the host's
        receives, the flash results and the stack contents. It restarts the
        receiver (packet 1, the cursor at the application start, no frame
        yet) and runs the loop until the status is no longer X_OK or control
        has passed to the application; the loop also stops when the host's
        script is exhausted, where the firmware would go on waiting.
        `rejections` counts the errors the error handler counted. */
    method ReceiveSession(hal: Board) returns (end: SessionEnd, ghost rejections: nat)
      requires !hal.jumped
      modifies this, hal`rx, hal`stack, hal`tx, hal`flashResults, hal`flashLog, hal`jumped
      ensures var s := Session(old(hal.rx), old(hal.flashResults), old(hal.stack));
        && end == EndOf(s) && rejections == s.rejections
        && hal.flashLog == old(hal.flashLog) + s.log && hal.tx == old(hal.tx) + s.tx
        && hal.rx == s.rx && hal.flashResults == s.results && hal.stack == s.stack
        && hal.jumped == s.jumped
        && packetNumber == s.number && flashAddress == s.cursor && firstPacketReceived == s.first
      ensures Valid()
      ensures |hal.flashLog| >= |old(hal.flashLog)| && hal.flashLog[..|old(hal.flashLog)|] == old(hal.flashLog)
      ensures SessionLog(hal.flashLog[|old(hal.flashLog)|..], acceptedBytes)
      ensures firstPacketReceived <==> hal.flashLog[|old(hal.flashLog)|..] != []
      ensures end == Completed <==> hal.jumped
      ensures end == Completed ==> EndsWith(hal.tx, [Ch(ACK), Str(MSG_UPDATED), Str(MSG_JUMPING)])
      ensures end == GaveUp ==> EndsWith(hal.tx, [Ch(CAN), Ch(CAN)])
      ensures end == GaveUp ==>
        || (&& FlashFaulted(hal.flashLog[|old(hal.flashLog)|..])
            && rejections < X_MAX_ERRORS as int
            && NakCount(hal.tx) == NakCount(old(hal.tx)) + rejections)
        || (&& !FlashFaulted(hal.flashLog[|old(hal.flashLog)|..])
            && rejections == X_MAX_ERRORS as int
            && NakCount(hal.tx) == NakCount(old(hal.tx)) + rejections - 1)
      ensures end != GaveUp ==>
        && !FlashFaulted(hal.flashLog[|old(hal.flashLog)|..])
        && rejections < X_MAX_ERRORS as int
        && NakCount(hal.tx) == NakCount(old(hal.tx)) + rejections
      ensures end == Waiting ==> hal.rx == []
      ensures old(hal.rx) != [] ==> |hal.rx| < |old(hal.rx)|
    {
      var status := X_OK;
      var errorNumber: bv8 := 0;
      firstPacketReceived := false;
      packetNumber := 1;
      flashAddress := FLASH_APP_START_ADDRESS;
      acceptedBytes := 0;
      acceptedPackets := 0;
      var header: byte := 0;
      ghost var log0 := hal.flashLog;
      ghost var tx0 := hal.tx;
      ghost var l := Start(hal.rx, hal.flashResults, hal.stack);
      assert hal.flashLog == log0 + [] && hal.tx == tx0 + [];
      errorNumber, status, header := Serve(hal, l, log0, tx0, errorNumber, status, header);
      if hal.jumped {
        end := Completed;
      } else if status == X_OK {
        end := Waiting;
      } else if header == CAN {
        end := Cancelled;
      } else {
        end := GaveUp;
      }
      rejections := Run(l).rejections;
      SessionReported(old(hal.rx), old(hal.flashResults), old(hal.stack), log0, tx0, Snapshot(),
                      errorNumber, status, header, hal.jumped, hal.flashLog, hal.tx, hal.rx,
                      hal.flashResults, hal.stack, end, rejections);
    }

    /** The loop of xmodem_receive (lines 43-112) from the loop state `l`:
        `Round` after `Round` until the status is no longer X_OK, control
        has passed to the application or the host's script is exhausted,
        as `Run` says. */
    method Serve(hal: Board, ghost l: Loop, ghost log0: seq<FlashOp>, ghost tx0: seq<TxItem>,
                 errorNumber0: bv8, status0: Status, header0: byte)
      returns (errorNumber: bv8, status: Status, header: byte)
      requires Matches(l, hal, log0, tx0, errorNumber0, status0, header0)
      modifies this, hal`rx, hal`stack, hal`tx, hal`flashResults, hal`flashLog, hal`jumped
      ensures Matches(Run(l), hal, log0, tx0, errorNumber, status, header)
    {
      errorNumber, status, header := errorNumber0, status0, header0;
      ghost var k := l;
      while status == X_OK && !hal.jumped && hal.rx != []
        invariant Matches(k, hal, log0, tx0, errorNumber, status, header)
        invariant Run(k) == Run(l)
        decreases |hal.rx|
      {
        header, status, errorNumber := Round(hal, k, log0, tx0, errorNumber);
        k := Step(k);
      }
    }
  }
}
