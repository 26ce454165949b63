/**
 * The start-up decision of boot_code (XMODEM variant) in main.c. After the
 * banner and the prompt, a 5-byte read that carries "bbb" or "2bl" (before
 * its first NUL) requests the transfer at once; otherwise a button held on
 * two samples arms a wait for the uploader script's command bytes
 * EC 04 32 62 6C 0A followed by a read carrying "bbb"; with neither, control
 * passes straight to the resident application. Once the transfer is
 * requested, XMODEM sessions follow one another until one completes.
 */
module Boot {
  import opened Hal
  import opened XmodemPacket
  import opened Xmodem

  // ---------------------------------------------------------------------
  // Messages

  const MSG_BANNER_TOP: string := "\n\r========== v"
  const MSG_BANNER_RULE: string := " =============\n\r"
  const MSG_BANNER_NAME: string := "  Bootloader for ExpressLRS\n\r"
  const MSG_BANNER_BOTTOM: string := "=============================\n\r"
  const MSG_PROMPT: string := "Send '2bl', 'bbb' or hold down button\n\r"

  /** What print_boot_header transmits (without the optional version and
      MCU strings). */
  function BootHeader(): seq<TxItem> {
    [Str(MSG_BANNER_TOP), Str(MSG_BANNER_RULE), Str(MSG_BANNER_NAME), Str(MSG_BANNER_BOTTOM)]
  }

  /** print_boot_header. */
  method PrintBootHeader(hal: Board)
    modifies hal`tx
    ensures hal.tx == old(hal.tx) + BootHeader()
  {
    hal.TransmitStr(MSG_BANNER_TOP);
    hal.TransmitStr(MSG_BANNER_RULE);
    hal.TransmitStr(MSG_BANNER_NAME);
    hal.TransmitStr(MSG_BANNER_BOTTOM);
  }

  // ---------------------------------------------------------------------
  // C strings and the magic tokens

  /** "bbb" and "2bl" in ASCII. */
  const TOKEN_BBB: seq<byte> := [0x62, 0x62, 0x62]
  const TOKEN_2BL: seq<byte> := [0x32, 0x62, 0x6C]

  /** The C string held by a buffer: the bytes before the first NUL. */
  function CStr(buf: seq<byte>): (s: seq<byte>)
    ensures |s| <= |buf| && s == buf[..|s|]
    ensures forall i :: 0 <= i < |s| ==> s[i] != 0
    ensures |s| < |buf| ==> buf[|s|] == 0
  {
    if buf == [] || buf[0] == 0 then [] else [buf[0]] + CStr(buf[1..])
  }

  /** `t` occurs in `s` at offset `i`. */
  predicate OccursAt(s: seq<byte>, t: seq<byte>, i: nat) {
    i + |t| <= |s| && s[i..i + |t|] == t
  }

  /** strstr finds `t` in `s`: only a string at least as long as `t` can
      contain it, and every string contains the empty one. */
  predicate Contains(s: seq<byte>, t: seq<byte>)
    ensures Contains(s, t) ==> |t| <= |s|
    ensures t == [] ==> Contains(s, t)
  {
    assert t == [] ==> OccursAt(s, t, 0);
    exists i :: 0 <= i <= |s| && OccursAt(s, t, i)
  }

  /** The six-byte header buffer after the first 5-byte read delivered
      `data`: zeros except where the driver stored bytes. */
  function FirstHeader(data: seq<byte>): seq<byte> {
    Fill([0, 0, 0, 0, 0, 0], data, 5)
  }

  /** The first read succeeds and carries one of the two tokens. */
  predicate TokenSeen(rx: seq<RxResult>) {
    ReceiveOk(rx)
    && (Contains(CStr(FirstHeader(rx[0].data)), TOKEN_BBB)
        || Contains(CStr(FirstHeader(rx[0].data)), TOKEN_2BL))
  }

  /** The header buffer after the first read of boot_code: what a
      successful read delivered over zeros, or all zeros. */
  function HeaderAfter(rx: seq<RxResult>): (h: seq<byte>)
    ensures |h| == 6 && h[5] == 0
    ensures !ReceiveOk(rx) ==> h == [0, 0, 0, 0, 0, 0]
  {
    if ReceiveOk(rx) then FirstHeader(rx[0].data) else [0, 0, 0, 0, 0, 0]
  }

  /** The header buffer ends in a NUL the reads never overwrite, so the
      token search stops inside it: any token found lies within the five
      bytes the read delivered. */
  lemma TokenWithinRead(data: seq<byte>, t: seq<byte>)
    requires Contains(CStr(FirstHeader(data)), t)
    ensures Contains(FirstHeader(data)[..5], t)
  {
    var h := FirstHeader(data);
    var s := CStr(h);
    assert h[5] == 0;
    var i :| 0 <= i <= |s| && OccursAt(s, t, i);
    assert |s| <= 5;
    assert h[..5][i..i + |t|] == s[i..i + |t|];
    assert OccursAt(h[..5], t, i);
  }

  // ---------------------------------------------------------------------
  // The button

  /** The default BUTTON_INVERTED: the pin reads high while released. */
  const BUTTON_INVERTED: bool := true

  /** `!!BTN_READ() ^ BUTTON_INVERTED`: with the inverted default, the
      button is pressed exactly when the pin reads low. */
  predicate Pressed(level: bool)
    ensures Pressed(level) <==> !level
  {
    level != BUTTON_INVERTED
  }

  /** The level of the `k`-th button sample; a released button once the
      script is exhausted. */
  function Level(levels: seq<bool>, k: nat): bool {
    if k < |levels| then levels[k] else BUTTON_INVERTED
  }

  /** The value of BLrequested after the first two checks: 0, 1 (token) or
      2 (button). */
  datatype Request = NotRequested | Token | Button

  /** Lines 192-207 of boot_code: the token read, then, only if no token was
      seen, the button sampled twice across the debounce delay. */
  method BootRequest(hal: Board, header: array<byte>) returns (req: Request)
    requires header.Length == 6 && header[..] == [0, 0, 0, 0, 0, 0]
    modifies hal`rx, hal`buttonLevels, header
    ensures header[..] == HeaderAfter(old(hal.rx))
    ensures hal.rx == Rest(old(hal.rx))
    ensures req == Token <==> TokenSeen(old(hal.rx))
    ensures req == Token ==> hal.buttonLevels == old(hal.buttonLevels)
    ensures req == Button <==>
      !TokenSeen(old(hal.rx))
      && Pressed(Level(old(hal.buttonLevels), 0)) && Pressed(Level(old(hal.buttonLevels), 1))
  {
    req := NotRequested;
    ghost var rx0 := hal.rx;
    var ok := hal.Receive(header, 5);
    if ok {
      assert header[..] == FirstHeader(rx0[0].data);
      var text := CStr(header[..]);
      if Contains(text, TOKEN_BBB) || Contains(text, TOKEN_2BL) {
        req := Token;
      }
    }
    if req == NotRequested {
      var level := hal.ReadButton(BUTTON_INVERTED);
      if Pressed(level) {
        level := hal.ReadButton(BUTTON_INVERTED);
        if Pressed(level) {
          req := Button;
        }
      }
    }
  }

  // ---------------------------------------------------------------------
  // The armed wait

  /** The uploader script's command bytes. */
  const MAGIC: seq<byte> := [0xEC, 0x04, 0x32, 0x62, 0x6C, 0x0A]
  const ARMED: nat := 6

  /** The matcher of lines 233-258 in state `k` < 6: the `k`-th command
      byte advances it, any other byte resets it. */
  function ArmStep(k: nat, ch: byte): (k': nat)
    requires k < ARMED
    ensures k' <= ARMED
    ensures k' == k + 1 <==> ch == MAGIC[k]
    ensures k' != k + 1 ==> k' == 0
  {
    if ch == MAGIC[k] then k + 1 else 0
  }

  /** The matcher's state after the bytes `s`, starting from 0; once armed
      it stays armed. */
  function Scan(s: seq<byte>): (k: nat)
    ensures k <= ARMED
  {
    if s == [] then 0
    else
      var k := Scan(s[..|s| - 1]);
      if k == ARMED then ARMED else ArmStep(k, s[|s| - 1])
  }

  /** The state counts the command bytes that end the input: in state `k`
      the last `k` bytes are the first `k` command bytes. */
  lemma ArmStepSuffix(t: seq<byte>, k: nat, ch: byte)
    requires k < ARMED && EndsWith(t, MAGIC[..k])
    ensures ArmStep(k, ch) <= ARMED && EndsWith(t + [ch], MAGIC[..ArmStep(k, ch)])
  {
    if ch == MAGIC[k] {
      assert (t + [ch])[|t + [ch]| - (k + 1)..] == t[|t| - k..] + [ch];
      assert MAGIC[..k + 1] == MAGIC[..k] + [MAGIC[k]];
    } else {
      assert (t + [ch])[|t + [ch]|..] == [];
    }
  }

  /** Whenever the matcher first reaches the armed state, the input ends
      with the six command bytes. */
  lemma {:induction false} ScanSuffix(s: seq<byte>)
    ensures Scan(s) < ARMED ==> EndsWith(s, MAGIC[..Scan(s)])
    ensures s != [] && Scan(s) == ARMED && Scan(s[..|s| - 1]) < ARMED ==> EndsWith(s, MAGIC)
  {
    if s == [] {
      assert s[0..] == [] == MAGIC[..0];
    } else {
      var p := s[..|s| - 1];
      ScanSuffix(p);
      ScanStepSuffix(p, s[|s| - 1]);
      assert p + [s[|s| - 1]] == s;
    }
  }

  /** The inductive step of `ScanSuffix`: one more byte. */
  lemma ScanStepSuffix(p: seq<byte>, ch: byte)
    requires Scan(p) < ARMED ==> EndsWith(p, MAGIC[..Scan(p)])
    ensures Scan(p + [ch]) < ARMED ==> EndsWith(p + [ch], MAGIC[..Scan(p + [ch])])
    ensures Scan(p + [ch]) == ARMED && Scan(p) < ARMED ==> EndsWith(p + [ch], MAGIC)
  {
    assert (p + [ch])[..|p|] == p;
    if Scan(p) < ARMED {
      ArmStepSuffix(p, Scan(p), ch);
      assert MAGIC[..ARMED] == MAGIC;
    }
  }

  /** From the reset state the command bytes always arm the matcher. */
  lemma {:induction false} MagicArms(p: seq<byte>)
    requires Scan(p) == 0
    ensures Scan(p + MAGIC) == ARMED
  {
    var q := p + MAGIC;
    assert q[..|p| + 1] == p + [0xEC] && (p + [0xEC])[..|p|] == p;
    assert q[..|p| + 2] == q[..|p| + 1] + [0x04];
    assert q[..|p| + 3] == q[..|p| + 2] + [0x32];
    assert q[..|p| + 4] == q[..|p| + 3] + [0x62];
    assert q[..|p| + 5] == q[..|p| + 4] + [0x6C];
    assert q == q[..|p| + 5] + [0x0A];
    assert Scan(q[..|p| + 1]) == 1;
    assert Scan(q[..|p| + 2]) == 2;
    assert Scan(q[..|p| + 3]) == 3;
    assert Scan(q[..|p| + 4]) == 4;
    assert Scan(q[..|p| + 5]) == 5;
  }

  /** A repeated first command byte resets the matcher instead of restarting
      the match: EC EC 04 32 62 6C 0A leaves it in the reset state although
      it ends with the command bytes. */
  lemma RepeatedLeadNotArmed()
    ensures Scan([0xEC, 0xEC, 0x04, 0x32, 0x62, 0x6C, 0x0A]) == 0
  {
    var s: seq<byte> := [0xEC, 0xEC, 0x04, 0x32, 0x62, 0x6C, 0x0A];
    assert s[..1] == [0xEC] && [0xEC][..0] == [];
    assert Scan(s[..1]) == 1;
    assert s[..2] == s[..1] + [0xEC];
    assert Scan(s[..2]) == 0;
    assert s[..3] == s[..2] + [0x04];
    assert Scan(s[..3]) == 0;
    assert s[..4] == s[..3] + [0x32];
    assert Scan(s[..4]) == 0;
    assert s[..5] == s[..4] + [0x62];
    assert Scan(s[..5]) == 0;
    assert s[..6] == s[..5] + [0x6C];
    assert Scan(s[..6]) == 0;
    assert s == s[..6] + [0x0A];
  }

  /** Below the armed state, one more byte steps the matcher. */
  lemma ScanSnoc(s: seq<byte>, ch: byte)
    requires Scan(s) < ARMED
    ensures Scan(s + [ch]) == ArmStep(Scan(s), ch)
  {
    assert (s + [ch])[..|s|] == s;
  }

  /** The banner printed `n` times. */
  function Banners(n: nat): seq<TxItem> {
    if n == 0 then [] else Banners(n - 1) + BootHeader()
  }

  /** How the armed wait ends on a script: whether "bbb" arrived after the
      command bytes, the bytes fed to the matcher since it was last reset,
      the header buffer, the part of the script left over, and how often
      the banner was printed. */
  datatype WaitEnd = WaitEnd(ready: bool, bytes: seq<byte>, header: seq<byte>,
                             rest: seq<RxResult>, banners: nat)

  /** The wait of lines 221-272 run over the receives `rx`, from the header
      buffer `hdr` and the bytes `bytes` fed to the matcher since it was last
      reset; the matcher's state is `Scan(bytes)`. Below the armed state, a
      successful one-byte read feeds its byte to the matcher and a failed
      one changes nothing. In the armed state the banner is printed and a
      five-byte read follows: a failed read resets the matcher, a read
      carrying "bbb" ends the wait, any other read leaves it armed. The
      firmware waits forever; here the wait also ends with the script. A
      wait that ends ready holds "bbb" in its buffer; one that does not has
      used up the whole script. */
  function Wait(bytes: seq<byte>, hdr: seq<byte>, rx: seq<RxResult>): (w: WaitEnd)
    requires |hdr| == 6
    ensures |w.header| == 6 && |w.rest| <= |rx|
    ensures w.ready ==> Contains(CStr(w.header), TOKEN_BBB) && |w.rest| < |rx|
    ensures !w.ready ==> w.rest == []
    decreases |rx|
  {
    if rx == [] then WaitEnd(false, bytes, hdr, [], 0)
    else if Scan(bytes) < ARMED then
      if rx[0].RxOk? then
        var h := Fill(hdr, rx[0].data, 1);
        Wait(bytes + [h[0]], h, rx[1..])
      else Wait(bytes, hdr, rx[1..])
    else
      var w :=
        if !rx[0].RxOk? then Wait([], hdr, rx[1..])
        else
          var h := Fill(hdr, rx[0].data, 5);
          if Contains(CStr(h), TOKEN_BBB) then WaitEnd(true, bytes, h, rx[1..], 0)
          else Wait(bytes, h, rx[1..]);
      w.(banners := w.banners + 1)
  }

  /** `w` with `n` more banners printed before it. */
  function Later(w: WaitEnd, n: nat): WaitEnd {
    w.(banners := w.banners + n)
  }

  /** Below the armed state, a successful read feeds its byte. */
  lemma WaitFeed(bytes: seq<byte>, hdr: seq<byte>, rx: seq<RxResult>)
    requires |hdr| == 6 && rx != [] && rx[0].RxOk? && Scan(bytes) < ARMED
    ensures Wait(bytes, hdr, rx)
         == Wait(bytes + [Fill(hdr, rx[0].data, 1)[0]], Fill(hdr, rx[0].data, 1), rx[1..])
  {
  }

  /** Below the armed state, a failed read changes nothing. */
  lemma WaitSkip(bytes: seq<byte>, hdr: seq<byte>, rx: seq<RxResult>)
    requires |hdr| == 6 && rx != [] && !rx[0].RxOk? && Scan(bytes) < ARMED
    ensures Wait(bytes, hdr, rx) == Wait(bytes, hdr, rx[1..])
  {
  }

  /** In the armed state, a failed read resets the matcher. */
  lemma WaitDisarm(bytes: seq<byte>, hdr: seq<byte>, rx: seq<RxResult>)
    requires |hdr| == 6 && rx != [] && !rx[0].RxOk? && Scan(bytes) == ARMED
    ensures Wait(bytes, hdr, rx) == Later(Wait([], hdr, rx[1..]), 1)
  {
  }

  /** In the armed state, a read carrying "bbb" ends the wait and any other
      read leaves the matcher armed. */
  lemma WaitArmedRead(bytes: seq<byte>, hdr: seq<byte>, rx: seq<RxResult>)
    requires |hdr| == 6 && rx != [] && rx[0].RxOk? && Scan(bytes) == ARMED
    ensures var h := Fill(hdr, rx[0].data, 5);
      Wait(bytes, hdr, rx)
      == if Contains(CStr(h), TOKEN_BBB) then WaitEnd(true, bytes, h, rx[1..], 1)
         else Later(Wait(bytes, h, rx[1..]), 1)
  {
  }

  /** The wait ends ready only when the matcher is armed by bytes that end
      with the six command bytes and the last read carries "bbb"; otherwise
      it consumes the whole script. */
  lemma {:induction false} WaitReady(bytes: seq<byte>, hdr: seq<byte>, rx: seq<RxResult>)
    requires |hdr| == 6
    requires Scan(bytes) == ARMED ==> EndsWith(bytes, MAGIC)
    ensures Wait(bytes, hdr, rx).ready ==>
      && Scan(Wait(bytes, hdr, rx).bytes) == ARMED
      && EndsWith(Wait(bytes, hdr, rx).bytes, MAGIC)
      && Contains(CStr(Wait(bytes, hdr, rx).header), TOKEN_BBB)
    decreases |rx|
  {
    if rx != [] {
      if Scan(bytes) < ARMED {
        if rx[0].RxOk? {
          var h := Fill(hdr, rx[0].data, 1);
          var s := bytes + [h[0]];
          ScanSuffix(s);
          assert s[..|s| - 1] == bytes;
          WaitReady(s, h, rx[1..]);
        } else {
          WaitReady(bytes, hdr, rx[1..]);
        }
      } else if !rx[0].RxOk? {
        WaitReady([], hdr, rx[1..]);
      } else {
        var h := Fill(hdr, rx[0].data, 5);
        if !Contains(CStr(h), TOKEN_BBB) {
          WaitReady(bytes, h, rx[1..]);
        }
      }
    }
  }

  /** The uploader script's command bytes, one successful read each. */
  function CommandScript(): seq<RxResult> {
    seq(ARMED, i requires 0 <= i < ARMED => RxOk([MAGIC[i]]))
  }

  /** A C string runs at least as far as the buffer's leading non-NUL bytes. */
  lemma {:induction false} CStrReaches(h: seq<byte>, n: nat)
    requires n <= |h| && forall k :: 0 <= k < n ==> h[k] != 0
    ensures |CStr(h)| >= n
  {
    if n > 0 {
      CStrReaches(h[1..], n - 1);
    }
  }

  /** A buffer whose first three bytes are "bbb" holds a C string that
      contains "bbb". */
  lemma TokenAtStart(h: seq<byte>)
    requires |h| >= 3 && h[..3] == TOKEN_BBB
    ensures Contains(CStr(h), TOKEN_BBB)
  {
    var s := CStr(h);
    assert forall k :: 0 <= k < 3 ==> h[k] == h[..3][k];
    CStrReaches(h, 3);
    assert s[..3] == h[..3];
    assert OccursAt(s, TOKEN_BBB, 0);
  }

  /** Armed, a read carrying "bbb" ends the wait, whatever the buffer held. */
  lemma ArmedReady(hdr: seq<byte>, rest: seq<RxResult>)
    requires |hdr| == 6
    ensures Wait(MAGIC, hdr, [RxOk(TOKEN_BBB)] + rest).ready
  {
    MagicArms([]);
    assert [] + MAGIC == MAGIC;
    var rx := [RxOk(TOKEN_BBB)] + rest;
    var h := Fill(hdr, TOKEN_BBB, 5);
    assert h[..3] == TOKEN_BBB;
    TokenAtStart(h);
    WaitArmedRead(MAGIC, hdr, rx);
  }

  /** `rx` starts with the command bytes from the `k`-th on, one per read,
      and then a read carrying "bbb". */
  predicate CommandsFrom(k: nat, rx: seq<RxResult>) {
    && k <= ARMED && |rx| > ARMED - k && rx[ARMED - k] == RxOk(TOKEN_BBB)
    && forall i :: 0 <= i < ARMED - k ==> rx[i] == RxOk([MAGIC[k + i]])
  }

  /** The first read of such a script delivers the `k`-th command byte, and
      the rest of the script starts with the following ones. */
  lemma CommandsNext(k: nat, rx: seq<RxResult>)
    requires CommandsFrom(k, rx) && k < ARMED
    ensures rx != [] && rx[0] == RxOk([MAGIC[k]])
    ensures CommandsFrom(k + 1, rx[1..])
  {
    assert rx[0] == RxOk([MAGIC[k + 0]]);
    var rx' := rx[1..];
    forall i | 0 <= i < ARMED - (k + 1)
      ensures rx'[i] == RxOk([MAGIC[k + 1 + i]])
    {
      assert rx'[i] == rx[i + 1];
    }
  }

  /** After the first `k` command bytes, the rest of the command bytes and
      a read carrying "bbb" end the wait. */
  lemma {:induction false} CommandFeeds(k: nat, hdr: seq<byte>, rx: seq<RxResult>)
    requires |hdr| == 6 && CommandsFrom(k, rx)
    requires Scan(MAGIC[..k]) == k
    ensures Wait(MAGIC[..k], hdr, rx).ready
    decreases ARMED - k
  {
    if k == ARMED {
      assert MAGIC[..k] == MAGIC;
      assert rx == [RxOk(TOKEN_BBB)] + rx[1..];
      ArmedReady(hdr, rx[1..]);
    } else {
      CommandsNext(k, rx);
      FeedCommandByte(k, hdr, rx);
      CommandFeeds(k + 1, Fill(hdr, [MAGIC[k]], 1), rx[1..]);
    }
  }

  /** One command byte moves the matcher one step along the sequence. */
  lemma FeedCommandByte(k: nat, hdr: seq<byte>, rx: seq<RxResult>)
    requires k < ARMED && |hdr| == 6 && Scan(MAGIC[..k]) == k
    requires rx != [] && rx[0] == RxOk([MAGIC[k]])
    ensures Scan(MAGIC[..k + 1]) == k + 1
    ensures Wait(MAGIC[..k], hdr, rx) == Wait(MAGIC[..k + 1], Fill(hdr, [MAGIC[k]], 1), rx[1..])
  {
    var h := Fill(hdr, [MAGIC[k]], 1);
    assert h[0] == MAGIC[k];
    WaitFeed(MAGIC[..k], hdr, rx);
    ScanSnoc(MAGIC[..k], MAGIC[k]);
    PrefixSnoc(MAGIC, k);
  }

  /** A prefix and the element after it make the next prefix. */
  lemma PrefixSnoc<T>(s: seq<T>, k: nat)
    requires k < |s|
    ensures s[..k] + [s[k]] == s[..k + 1]
  {
  }

  /** The uploader's command bytes followed by a read carrying "bbb" always
      end the wait ready, from the reset state and whatever the buffer held. */
  lemma UploaderGetsThrough(hdr: seq<byte>, rest: seq<RxResult>)
    requires |hdr| == 6
    ensures Wait([], hdr, CommandScript() + [RxOk(TOKEN_BBB)] + rest).ready
  {
    var rx := CommandScript() + [RxOk(TOKEN_BBB)] + rest;
    assert MAGIC[..0] == [];
    assert forall i :: 0 <= i < ARMED ==> rx[i] == RxOk([MAGIC[0 + i]]);
    CommandFeeds(0, hdr, rx);
  }

  /** Lines 217-273 of boot_code: the wait after a button request, with
      `state` the matcher's state. It runs as `Wait` says on the receives of
      the host's script, from the reset state, and prints the banner once
      per armed read. `bytes` are the bytes fed to the matcher since it was
      last reset. Neither the flash nor the jump is touched. */
  method ArmedWait(hal: Board, header: array<byte>) returns (ready: bool, ghost bytes: seq<byte>)
    requires header.Length == 6 && header[5] == 0
    modifies hal`rx, hal`tx, header
    ensures var w := Wait([], old(header[..]), old(hal.rx));
      && ready == w.ready && bytes == w.bytes && header[..] == w.header && hal.rx == w.rest
      && hal.tx == old(hal.tx) + Banners(w.banners)
    ensures header[5] == 0
    ensures ready ==> EndsWith(bytes, MAGIC) && Contains(CStr(header[..]), TOKEN_BBB)
    ensures !ready ==> hal.rx == []
  {
    ghost var w0 := Wait([], header[..], hal.rx);
    ghost var tx0 := hal.tx;
    WaitReady([], header[..], hal.rx);
    ghost var printed := 0;
    var state: nat := 0;
    bytes := [];
    ready := false;
    assert tx0 + [] == tx0;
    while hal.rx != []
      invariant WaitAt(w0, printed, state, bytes, header[..], hal.rx, tx0, hal.tx)
      decreases |hal.rx|
    {
      ready, state, bytes, printed := WaitRound(hal, header, state, bytes, w0, printed, tx0);
      if ready {
        break;
      }
    }
    WaitOver(w0, printed, state, bytes, header[..], hal.rx, tx0, hal.tx, ready);
  }

  /** The wait that ends as `w0` stands after `printed` banners, with the
      matcher in `state` after `bytes`, the header buffer `hdr`, the script
      `rx` left and the transmissions `tx` after `tx0`. */
  predicate WaitAt(w0: WaitEnd, printed: nat, state: nat, bytes: seq<byte>, hdr: seq<byte>,
                   rx: seq<RxResult>, tx0: seq<TxItem>, tx: seq<TxItem>)
  {
    && |hdr| == 6 && hdr[5] == 0 && state == Scan(bytes)
    && Later(Wait(bytes, hdr, rx), printed) == w0 && tx == tx0 + Banners(printed)
  }

  /** Where the wait stopped, ready or with the script used up, is how `w0`
      says it ends. */
  lemma WaitOver(w0: WaitEnd, printed: nat, state: nat, bytes: seq<byte>, hdr: seq<byte>,
                 rx: seq<RxResult>, tx0: seq<TxItem>, tx: seq<TxItem>, ready: bool)
    requires ready ==> w0 == WaitEnd(true, bytes, hdr, rx, printed) && tx == tx0 + Banners(printed)
    requires !ready ==> WaitAt(w0, printed, state, bytes, hdr, rx, tx0, tx) && rx == []
    ensures ready == w0.ready && bytes == w0.bytes && hdr == w0.header && rx == w0.rest
    ensures tx == tx0 + Banners(w0.banners)
  {
  }

  /** One pass of the loop of lines 221-272: a one-byte read below the
      armed state, the banner and a five-byte read in it; the wait goes on
      as `w0` says, or ends ready. */
  method WaitRound(hal: Board, header: array<byte>, state: nat, ghost bytes: seq<byte>,
                   ghost w0: WaitEnd, ghost printed: nat, ghost tx0: seq<TxItem>)
    returns (ready: bool, state': nat, ghost bytes': seq<byte>, ghost printed': nat)
    requires header.Length == 6 && hal.rx != []
    requires WaitAt(w0, printed, state, bytes, header[..], hal.rx, tx0, hal.tx)
    modifies hal`rx, hal`tx, header
    ensures |hal.rx| < |old(hal.rx)|
    ensures !ready ==> WaitAt(w0, printed', state', bytes', header[..], hal.rx, tx0, hal.tx)
    ensures ready ==>
      && w0 == WaitEnd(true, bytes', header[..], hal.rx, printed') && hal.tx == tx0 + Banners(printed')
      && header[5] == 0
  {
    ready, printed' := false, printed;
    if state < ARMED {
      state', bytes' := MatchByte(hal, header, state, bytes);
    } else {
      ready, state', bytes' := AwaitToken(hal, header, bytes);
      printed' := printed + 1;
      assert tx0 + Banners(printed) + BootHeader() == tx0 + Banners(printed');
    }
  }

  /** Lines 228-259 of boot_code: below the armed state, a one-byte read;
      a byte that arrives steps the matcher, a failed read changes nothing. */
  method MatchByte(hal: Board, header: array<byte>, state: nat, ghost bytes: seq<byte>)
    returns (state': nat, ghost bytes': seq<byte>)
    requires header.Length == 6 && header[5] == 0
    requires hal.rx != [] && state == Scan(bytes) && state < ARMED
    modifies hal`rx, header
    ensures header[5] == 0 && state' == Scan(bytes')
    ensures hal.rx == old(hal.rx)[1..]
    ensures Wait(bytes', header[..], hal.rx) == Wait(bytes, old(header[..]), old(hal.rx))
  {
    ghost var rx1 := hal.rx;
    ghost var h1 := header[..];
    state', bytes' := state, bytes;
    var ok := hal.Receive(header, 1);
    if ok {
      var ch := header[0];
      WaitFeed(bytes, h1, rx1);
      ScanSnoc(bytes, ch);
      bytes' := bytes + [ch];
      state' := ArmStep(state, ch);
    } else {
      WaitSkip(bytes, h1, rx1);
    }
  }

  /** Lines 260-271 of boot_code: in the armed state, the banner and a
      five-byte read; a failed read resets the matcher, a read carrying
      "bbb" ends the wait, any other leaves the matcher armed. */
  method AwaitToken(hal: Board, header: array<byte>, ghost bytes: seq<byte>)
    returns (ready: bool, state': nat, ghost bytes': seq<byte>)
    requires header.Length == 6 && header[5] == 0
    requires hal.rx != [] && Scan(bytes) == ARMED
    modifies hal`rx, hal`tx, header
    ensures header[5] == 0 && state' == Scan(bytes')
    ensures hal.tx == old(hal.tx) + BootHeader()
    ensures hal.rx == old(hal.rx)[1..]
    ensures ready ==> Wait(bytes, old(header[..]), old(hal.rx))
                      == WaitEnd(true, bytes', header[..], hal.rx, 1)
    ensures !ready ==> Wait(bytes, old(header[..]), old(hal.rx))
                       == Later(Wait(bytes', header[..], hal.rx), 1)
  {
    ghost var rx1 := hal.rx;
    ghost var h1 := header[..];
    PrintBootHeader(hal);
    ready, state', bytes' := false, ARMED, bytes;
    var ok := hal.Receive(header, 5);
    if !ok {
      WaitDisarm(bytes, h1, rx1);
      state', bytes' := 0, [];
    } else {
      WaitArmedRead(bytes, h1, rx1);
      if Contains(CStr(header[..]), TOKEN_BBB) {
        ready := true;
      }
    }
  }

  // ---------------------------------------------------------------------
  // The transfer loop and boot_code

  /** Lines 276-282 of boot_code on the scripts: XMODEM sessions, each
      started afresh over what the one before it left of the receive, flash
      result and stack scripts, while none has completed and the receive
      script lasts. */
  function Sessions(rx: seq<RxResult>, results: seq<bool>, stack: seq<seq<byte>>): (ss: seq<Loop>)
    ensures forall i :: 0 <= i < |ss| - 1 ==> !ss[i].jumped
    ensures ss == [] <==> rx == []
    decreases |rx|
  {
    if rx == [] then []
    else
      var s := Session(rx, results, stack);
      if s.jumped then [s] else [s] + Sessions(s.rx, s.results, s.stack)
  }

  /** The flash operations of the sessions `ss`, one after another. */
  function Flashed(ss: seq<Loop>): seq<FlashOp> {
    if ss == [] then [] else Flashed(ss[..|ss| - 1]) + ss[|ss| - 1].log
  }

  /** The transmissions of the sessions `ss`, one after another. */
  function Sent(ss: seq<Loop>): seq<TxItem> {
    if ss == [] then [] else Sent(ss[..|ss| - 1]) + ss[|ss| - 1].tx
  }

  /** How each of the sessions `ss` ended, in order. */
  function Ends(ss: seq<Loop>): (es: seq<SessionEnd>)
    ensures |es| == |ss| && forall i :: 0 <= i < |ss| ==> es[i] == EndOf(ss[i])
  {
    if ss == [] then [] else Ends(ss[..|ss| - 1]) + [EndOf(ss[|ss| - 1])]
  }

  /** Once the sessions `done` have run and their last one, if any, did
      not complete, the rest run over what they left. */
  function Remaining(done: seq<Loop>, rx: seq<RxResult>, results: seq<bool>, stack: seq<seq<byte>>): seq<Loop> {
    if done != [] && done[|done| - 1].jumped then [] else Sessions(rx, results, stack)
  }

  /** Running one more session `s` over the scripts continues the sessions. */
  lemma SessionsNext(rx: seq<RxResult>, results: seq<bool>, stack: seq<seq<byte>>)
    requires rx != []
    ensures var s := Session(rx, results, stack);
      Sessions(rx, results, stack) == [s] + Remaining([s], s.rx, s.results, s.stack)
  {
  }

  /** One more session adds its flash operations, its transmissions and how
      it ended. */
  lemma FlashedSnoc(done: seq<Loop>, s: Loop)
    ensures Flashed(done + [s]) == Flashed(done) + s.log
    ensures Sent(done + [s]) == Sent(done) + s.tx
    ensures Ends(done + [s]) == Ends(done) + [EndOf(s)]
  {
    assert (done + [s])[..|done|] == done;
  }

  /** Of the sessions over any scripts, only the last may complete, and
      the transfer completes exactly when the last one jumped. */
  lemma SessionsComplete(rx: seq<RxResult>, results: seq<bool>, stack: seq<seq<byte>>)
    ensures var ss := Sessions(rx, results, stack);
      && (forall i :: 0 <= i < |ss| - 1 ==> EndOf(ss[i]) != Completed)
      && (ss != [] && ss[|ss| - 1].jumped <==> ss != [] && EndOf(ss[|ss| - 1]) == Completed)
  {
    var ss := Sessions(rx, results, stack);
    forall i | 0 <= i < |ss| - 1
      ensures EndOf(ss[i]) != Completed
    {
      assert !ss[i].jumped;
    }
  }

  /** The last of the sessions over any scripts, when it jumped, completed
      with the ACK and both messages. */
  lemma {:induction false} LastSessionCompletes(rx: seq<RxResult>, results: seq<bool>, stack: seq<seq<byte>>)
    ensures var ss := Sessions(rx, results, stack);
      ss != [] && ss[|ss| - 1].jumped ==>
        EndsWith(ss[|ss| - 1].tx, [Ch(ACK), Str(MSG_UPDATED), Str(MSG_JUMPING)])
    decreases |rx|
  {
    if rx != [] {
      var s := Session(rx, results, stack);
      SessionStands(rx, results, stack);
      if !s.jumped {
        LastSessionCompletes(s.rx, s.results, s.stack);
        var rest := Sessions(s.rx, s.results, s.stack);
        if rest != [] {
          assert ([s] + rest)[|[s] + rest| - 1] == rest[|rest| - 1];
        }
      }
    }
  }

  /** The sessions `done` have run, leaving how each ended in `ends`, the
      flash log `log` after `log0`, the transmissions `tx` after `tx0` and
      the jump flag `jumped`. */
  predicate Ran(done: seq<Loop>, ends: seq<SessionEnd>, log0: seq<FlashOp>, tx0: seq<TxItem>,
               log: seq<FlashOp>, tx: seq<TxItem>, jumped: bool)
  {
    && ends == Ends(done) && log == log0 + Flashed(done) && tx == tx0 + Sent(done)
    && jumped == (done != [] && done[|done| - 1].jumped)
  }

  /** The sessions `done` have run out of the sessions `all`, as `Ran`
      says, and what is left of the receive, flash-result and stack scripts
      runs the rest. */
  predicate Transferred(all: seq<Loop>, done: seq<Loop>, ends: seq<SessionEnd>,
                        log0: seq<FlashOp>, tx0: seq<TxItem>, log: seq<FlashOp>, tx: seq<TxItem>,
                        jumped: bool, rx: seq<RxResult>, results: seq<bool>, stack: seq<seq<byte>>)
  {
    && all == done + Remaining(done, rx, results, stack)
    && Ran(done, ends, log0, tx0, log, tx, jumped)
  }

  /** One more session over what the sessions `done` left, ended as `end`,
      continues them. */
  lemma TransferStep(all: seq<Loop>, done: seq<Loop>, ends: seq<SessionEnd>,
                     log0: seq<FlashOp>, tx0: seq<TxItem>, log: seq<FlashOp>, tx: seq<TxItem>,
                     rx: seq<RxResult>, results: seq<bool>, stack: seq<seq<byte>>, end: SessionEnd,
                     log': seq<FlashOp>, tx': seq<TxItem>, jumped': bool,
                     rx': seq<RxResult>, results': seq<bool>, stack': seq<seq<byte>>)
    requires Transferred(all, done, ends, log0, tx0, log, tx, false, rx, results, stack) && rx != []
    requires var s := Session(rx, results, stack);
      && end == EndOf(s) && log' == log + s.log && tx' == tx + s.tx
      && rx' == s.rx && results' == s.results && stack' == s.stack && jumped' == s.jumped
    ensures Transferred(all, done + [Session(rx, results, stack)], ends + [end], log0, tx0,
                        log', tx', jumped', rx', results', stack')
  {
    var s := Session(rx, results, stack);
    RemainingStep(all, done, rx, results, stack);
    RanStep(done, ends, s, end, log0, tx0, log, tx, log', tx', jumped');
  }

  /** The sessions still to run, once one more has run over what `done`
      left (none of `done` having completed). */
  lemma RemainingStep(all: seq<Loop>, done: seq<Loop>, rx: seq<RxResult>, results: seq<bool>,
                      stack: seq<seq<byte>>)
    requires all == done + Remaining(done, rx, results, stack) && rx != []
    requires done == [] || !done[|done| - 1].jumped
    ensures var s := Session(rx, results, stack);
      all == (done + [s]) + Remaining(done + [s], s.rx, s.results, s.stack)
  {
    var s := Session(rx, results, stack);
    SessionsNext(rx, results, stack);
    RemainingAfter(done, s, s.rx, s.results, s.stack);
  }

  /** Whether more sessions run after `done` and one more session `s`
      depends on `s` alone; and putting `s` at the end of `done` or at the
      front of the rest makes the same sequence. */
  lemma RemainingAfter(done: seq<Loop>, s: Loop, rx: seq<RxResult>, results: seq<bool>, stack: seq<seq<byte>>)
    ensures Remaining(done + [s], rx, results, stack) == Remaining([s], rx, results, stack)
    ensures done + ([s] + Remaining([s], rx, results, stack))
         == (done + [s]) + Remaining(done + [s], rx, results, stack)
  {
    assert (done + [s])[|done + [s]| - 1] == s;
  }

  /** One more session `s`, ended as `end`, adds its flash operations and
      transmissions to what the sessions `done` left. */
  lemma RanStep(done: seq<Loop>, ends: seq<SessionEnd>, s: Loop, end: SessionEnd,
                log0: seq<FlashOp>, tx0: seq<TxItem>, log: seq<FlashOp>, tx: seq<TxItem>,
                log': seq<FlashOp>, tx': seq<TxItem>, jumped': bool)
    requires Ran(done, ends, log0, tx0, log, tx, false)
    requires end == EndOf(s) && log' == log + s.log && tx' == tx + s.tx && jumped' == s.jumped
    ensures Ran(done + [s], ends + [end], log0, tx0, log', tx', jumped')
  {
    FlashedSnoc(done, s);
  }

  /** Once the last session completed or the receive script is exhausted,
      the sessions done are all of them. */
  lemma TransferEnd(all: seq<Loop>, done: seq<Loop>, ends: seq<SessionEnd>,
                    log0: seq<FlashOp>, tx0: seq<TxItem>, log: seq<FlashOp>, tx: seq<TxItem>,
                    jumped: bool, rx: seq<RxResult>, results: seq<bool>, stack: seq<seq<byte>>)
    requires Transferred(all, done, ends, log0, tx0, log, tx, jumped, rx, results, stack)
    requires jumped || rx == []
    ensures all == done
  {
    if jumped {
      assert Remaining(done, rx, results, stack) == [];
    } else {
      assert Remaining(done, rx, results, stack) == Sessions(rx, results, stack) == [];
    }
  }

  /** Lines 276-282 of boot_code: XMODEM sessions, each started afresh
      after the one before it ended without completing, until one
      completes and control passes to the application (or the host's
      script is exhausted), as `Sessions` says. `ends` lists how each
      session ended. */
  method TransferLoop(hal: Board, xm: Receiver) returns (ghost ends: seq<SessionEnd>)
    requires !hal.jumped
    modifies xm, hal`rx, hal`stack, hal`tx, hal`flashResults, hal`flashLog, hal`jumped
    ensures var ss := Sessions(old(hal.rx), old(hal.flashResults), old(hal.stack));
      Ran(ss, ends, old(hal.flashLog), old(hal.tx), hal.flashLog, hal.tx, hal.jumped)
    ensures hal.jumped || hal.rx == []
  {
    ghost var all := Sessions(hal.rx, hal.flashResults, hal.stack);
    ghost var log0, tx0 := hal.flashLog, hal.tx;
    ghost var done: seq<Loop> := [];
    ends := [];
    assert log0 + [] == log0 && tx0 + [] == tx0;
    while !hal.jumped && hal.rx != []
      invariant Transferred(all, done, ends, log0, tx0, hal.flashLog, hal.tx, hal.jumped,
                            hal.rx, hal.flashResults, hal.stack)
      decreases |hal.rx|
    {
      ghost var rx, results, stack := hal.rx, hal.flashResults, hal.stack;
      ghost var log, tx := hal.flashLog, hal.tx;
      var end;
      ghost var rejections;
      end, rejections := xm.ReceiveSession(hal);
      TransferStep(all, done, ends, log0, tx0, log, tx, rx, results, stack, end,
                   hal.flashLog, hal.tx, hal.jumped, hal.rx, hal.flashResults, hal.stack);
      done := done + [Session(rx, results, stack)];
      ends := ends + [end];
    }
    TransferEnd(all, done, ends, log0, tx0, hal.flashLog, hal.tx, hal.jumped,
                hal.rx, hal.flashResults, hal.stack);
  }

  /** After anything sent before them, the transmissions of sessions whose
      last one completed end with the ACK and both messages. */
  lemma CompletedTail(tx0: seq<TxItem>, rx: seq<RxResult>, results: seq<bool>, stack: seq<seq<byte>>)
    ensures var ss := Sessions(rx, results, stack);
      ss != [] && ss[|ss| - 1].jumped ==>
        EndsWith(tx0 + Sent(ss), [Ch(ACK), Str(MSG_UPDATED), Str(MSG_JUMPING)])
  {
    var ss := Sessions(rx, results, stack);
    if ss != [] && ss[|ss| - 1].jumped {
      var t := [Ch(ACK), Str(MSG_UPDATED), Str(MSG_JUMPING)];
      LastSessionCompletes(rx, results, stack);
      EndsWithAfter(Sent(ss[..|ss| - 1]), ss[|ss| - 1].tx, t);
      EndsWithAfter(tx0, Sent(ss), t);
    }
  }

  /** A sequence that ends with `t` still does after anything before it. */
  lemma EndsWithAfter<T>(s: seq<T>, u: seq<T>, t: seq<T>)
    requires EndsWith(u, t)
    ensures EndsWith(s + u, t)
  {
    assert (s + u)[|s + u| - |t|..] == u[|u| - |t|..];
  }

  /** The transfer loop over the receive script `rx`, the flash results
      `results` and the stack contents `stack`, after the flash log `log0`
      and the transmissions `tx0`: the flash log `log`, the transmissions
      `tx` and the jump flag `jumped` are those of the sessions it runs. */
  predicate Transfers(rx: seq<RxResult>, results: seq<bool>, stack: seq<seq<byte>>,
                      log0: seq<FlashOp>, tx0: seq<TxItem>, log: seq<FlashOp>, tx: seq<TxItem>, jumped: bool)
  {
    var ss := Sessions(rx, results, stack);
    && log == log0 + Flashed(ss) && tx == tx0 + Sent(ss)
    && jumped == (ss != [] && ss[|ss| - 1].jumped)
  }

  /** What boot_code promises once a transfer is requested, starting from
      the header buffer `hdr`, the scripts `rx`, `results` and `stack`, the
      flash log `log0` and the output `tx0`: for the token, the sessions
      of the transfer loop run on the whole script; for the button, the
      armed wait runs first and the sessions run on what it leaves only if
      it saw "bbb", otherwise nothing is flashed and the script is used
      up. In every case control passes to the application only after the
      ACK and both messages, and stays only once the script is used up. */
  predicate Served(req: Request, hdr: seq<byte>, rx: seq<RxResult>, results: seq<bool>,
                   stack: seq<seq<byte>>, log0: seq<FlashOp>, tx0: seq<TxItem>,
                   log: seq<FlashOp>, tx: seq<TxItem>, jumped: bool, rxNow: seq<RxResult>)
  {
    match req
    case NotRequested => true
    case Token =>
      && Transfers(rx, results, stack, log0, tx0, log, tx, jumped)
      && Ended(tx, jumped, rxNow)
    case Button =>
      && |hdr| == 6
      && (var w := Wait([], hdr, rx);
          if w.ready
          then Transfers(w.rest, results, stack, log0, tx0 + Banners(w.banners), log, tx, jumped)
          else log == log0 && tx == tx0 + Banners(w.banners) && !jumped && rxNow == [])
      && Ended(tx, jumped, rxNow)
  }

  /** How boot_code ends after a requested transfer: control passes to the
      application only after the ACK and both messages, and otherwise the
      script is used up. */
  predicate Ended(tx: seq<TxItem>, jumped: bool, rxNow: seq<RxResult>)
  {
    && (jumped ==> EndsWith(tx, [Ch(ACK), Str(MSG_UPDATED), Str(MSG_JUMPING)]))
    && (!jumped ==> rxNow == [])
  }

  /** Lines 258-282 of boot_code once the transfer is requested: for the
      button, the armed wait first; then, unless the wait ended without
      "bbb" (the script exhausted), the transfer loop. Only a transfer
      flashes or passes control to the application, and control passes
      only after the ACK and both messages. */
  method Requested(hal: Board, xm: Receiver, header: array<byte>, req: Request,
                   ghost rx0: seq<RxResult>, ghost results0: seq<bool>, ghost stack0: seq<seq<byte>>,
                   ghost log0: seq<FlashOp>, ghost tx0: seq<TxItem>)
    requires req != NotRequested && !hal.jumped
    requires header.Length == 6 && header[..] == HeaderAfter(rx0)
    requires hal.rx == Rest(rx0) && hal.flashResults == results0 && hal.stack == stack0
    requires hal.flashLog == log0 && hal.tx == tx0
    modifies xm, hal`rx, hal`stack, hal`tx, hal`flashResults, hal`flashLog, hal`jumped, header
    ensures Served(req, HeaderAfter(rx0), Rest(rx0), results0, stack0, log0, tx0,
                   hal.flashLog, hal.tx, hal.jumped, hal.rx)
  {
    var ready := true;
    if req == Button {
      ghost var bytes;
      ready, bytes := ArmedWait(hal, header);
    }
    if ready {
      ghost var tx1, rx1, results1, stack1 := hal.tx, hal.rx, hal.flashResults, hal.stack;
      ghost var ends := TransferLoop(hal, xm);
      CompletedTail(tx1, rx1, results1, stack1);
    }
  }

  /** boot_code, XMODEM variant: banner and prompt, the request checks,
      then the application (not requested), or the transfer as `Requested`
      says, after the header read (token) or the armed wait (button). Only
      a transfer flashes; control passes to the application unrequested or
      only after the ACK and both messages. */
  method BootCode(hal: Board, xm: Receiver) returns (req: Request)
    requires !hal.jumped
    modifies xm, hal`rx, hal`stack, hal`tx, hal`buttonLevels, hal`flashResults, hal`flashLog, hal`jumped
    ensures req == Token <==> TokenSeen(old(hal.rx))
    ensures req == Button <==>
      !TokenSeen(old(hal.rx))
      && Pressed(Level(old(hal.buttonLevels), 0)) && Pressed(Level(old(hal.buttonLevels), 1))
    ensures req == NotRequested ==>
      hal.jumped && hal.flashLog == old(hal.flashLog)
      && hal.tx == old(hal.tx) + BootHeader() + [Str(MSG_PROMPT)]
    ensures req != NotRequested ==>
      Served(req, HeaderAfter(old(hal.rx)), Rest(old(hal.rx)), old(hal.flashResults), old(hal.stack),
             old(hal.flashLog), old(hal.tx) + BootHeader() + [Str(MSG_PROMPT)],
             hal.flashLog, hal.tx, hal.jumped, hal.rx)
  {
    ghost var rx0, results0, stack0, log0 := hal.rx, hal.flashResults, hal.stack, hal.flashLog;
    ghost var tx0 := hal.tx + BootHeader() + [Str(MSG_PROMPT)];
    var header := new byte[6](_ => 0);
    PrintBootHeader(hal);
    hal.TransmitStr(MSG_PROMPT);
    req := BootRequest(hal, header);
    if req == NotRequested {
      hal.JumpToApp();
    } else {
      Requested(hal, xm, header, req, rx0, results0, stack0, log0, tx0);
    }
  }
}
