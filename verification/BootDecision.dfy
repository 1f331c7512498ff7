/**
 The boot decision of FSBL/fsbl_main.c: UefiMain reads the raw-partition header, verifies
 the FSBL, and starts an SSBL according to boot mode, bank and key mode. Every call into
 firmware services is a parameter of the run (`Env`); what the run does to the outside is
 its event log.
 */
module BootDecision {

  import opened Basics

  const BOOT_MODE_NORMAL := 1
  const BOOT_MODE_UPDATE := 2
  const BOOT_MODE_RECOVERY := 3
  const BOOT_MODE_FACTORY := 4
  const KEY_MODE_NORMAL := 1

  /** rawprt_hdr_t; `rest` is everything UefiMain only copies */
  datatype Header = Header(rest: seq<byte>, bootmode: nat, keymode: nat, bootpres: seq<byte>) {
    ghost predicate Valid() { |bootpres| == 8 }
  }

  /** Results of the calls UefiMain makes, and the build switch _SBC_DEVID_VERIFY_. */
  datatype Env = Env(
    fsblOk: bool, diceOk: bool, devidVerify: bool, ssblOk: bool, devidOk: bool,
    handleOk: bool, headerReadOk: bool, poolOk: bool, imageReadOk: bool, writes: seq<bool>, startOk: bool)

  datatype Event =
    | FsblVerified
    | DiceGenerated
    | SsblChecked(bank: nat, ok: bool)
    | HeaderWritten(header: Header)
    | Started(bank: nat)
    | FactoryStarted
    | Shutdown

  datatype Efi = Success | InvalidParameter

  // ---- Which bank ----

  /** A UINT32 by its base-256 digits, least significant first. */
  datatype Word32 = Word32(d0: byte, d1: byte, d2: byte, d3: byte) {
    /** SBC_SWAP_ENDIAN_32 */
    function Swap(): Word32 { Word32(d3, d2, d1, d0) }

    /** (CHAR8)(x & 0x0000FFFF) keeps the least significant digit only. */
    function LowByte(): byte { d0 }

    /** (x & 0xFFFF0000) >> 16 */
    function HighHalf(): nat {
      var top: int := d3;
      0x100 * top + d2
    }
  }

  /** CopyMem of four bytes into a little-endian UINT32. */
  function Load32(b: seq<byte>, o: nat): Word32
    requires o + 4 <= |b|
  {
    Word32(b[o], b[o + 1], b[o + 2], b[o + 3])
  }

  const LETTER_C := 0x43

  function BigEndian16(hi: byte, lo: byte): nat {
    var h: int := hi;
    0x100 * h + lo
  }

  /**
   The current bank. In terms of the header bytes: the first two of the first group of four that
   ends in the letter C, read big-endian; the third byte is ignored, and 0 means neither group does.
   */
  function CurrentBank(h: Header): (bank: nat)
    requires h.Valid()
    ensures var b := h.bootpres;
      bank == if b[3] == 0x43 then BigEndian16(b[0], b[1])
              else if b[7] == 0x43 then BigEndian16(b[4], b[5])
              else 0
  {
    var low, hi := Load32(h.bootpres, 0).Swap(), Load32(h.bootpres, 4).Swap();
    if low.LowByte() == LETTER_C then low.HighHalf()
    else if hi.LowByte() == LETTER_C then hi.HighHalf()
    else 0
  }

  /** FindPreviouslyBank */
  function FindPreviouslyBank(bank: nat): (r: nat)
    ensures r != 0
    ensures bank == 1 || bank == 2 ==> r == 3 - bank
    ensures r == 1 || r == 2 <==> bank == 1 || bank == 2
  {
    if bank == 1 then 2 else if bank == 2 then 1 else 0xFFFF_FFFF
  }

  // ---- The reference: what a run should log ----

  predicate AnyWrite(env: Env) { true in env.writes }

  /** All steps of SBC_BootModeNormalAndpUdate before the start succeed. */
  predicate Loads(env: Env, bank: nat) {
    1 <= bank <= 2 && env.handleOk && env.headerReadOk && env.poolOk && env.imageReadOk && AnyWrite(env)
  }

  /** Everything that must hold before a boot mode acts. */
  predicate Trusted(env: Env) {
    env.fsblOk && env.diceOk
  }

  predicate DeviceAccepted(env: Env) {
    env.devidVerify ==> env.devidOk
  }

  function KeyEvents(h: Header): seq<Event> {
    if h.keymode != KEY_MODE_NORMAL then [HeaderWritten(h.(keymode := KEY_MODE_NORMAL))] else []
  }

  /** The bank a non-factory mode boots. */
  function Target(h: Header): nat
    requires h.Valid()
  {
    if h.bootmode == BOOT_MODE_RECOVERY then FindPreviouslyBank(CurrentBank(h)) else CurrentBank(h)
  }

  predicate BootsBank(h: Header) {
    h.bootmode == BOOT_MODE_NORMAL || h.bootmode == BOOT_MODE_UPDATE || h.bootmode == BOOT_MODE_RECOVERY
  }

  /** What a trusted run does in its boot mode. */
  function ModeEvents(h: Header, env: Env): seq<Event>
    requires h.Valid()
  {
    if BootsBank(h) then
      (if env.devidVerify then [SsblChecked(Target(h), env.ssblOk)] else []) +
      (if DeviceAccepted(env) && Loads(env, Target(h)) then [Started(Target(h))] else [])
    else if h.bootmode == BOOT_MODE_FACTORY then
      if DeviceAccepted(env) then KeyEvents(h) + [FactoryStarted] else KeyEvents(h) + [Shutdown]
    else []
  }

  function Events(h: Header, env: Env): seq<Event>
    requires h.Valid()
  {
    (if env.fsblOk then [FsblVerified] else []) +
    (if Trusted(env) then [DiceGenerated] + ModeEvents(h, env)
     else if h.bootmode == BOOT_MODE_FACTORY then KeyEvents(h) + [Shutdown]
     else [])
  }

  // ---- The program ----

  /** The write loop: the file is written through the first handle that accepts it. */
  method WriteSsbl(writes: seq<bool>) returns (ok: bool)
    ensures ok <==> true in writes
  {
    ok := false;
    var idx := 0;
    while idx < |writes|
      invariant 0 <= idx <= |writes|
      invariant !ok && true !in writes[..idx]
    {
      ok := writes[idx];
      if ok {
        break;
      }
      assert writes[..idx + 1] == writes[..idx] + [false];
      idx := idx + 1;
    }
    assert writes[..|writes|] == writes;
  }

  /** SBC_BootModeNormalAndpUdate */
  method BootBank(env: Env, bank: nat, log: seq<Event>) returns (ok: bool, log': seq<Event>)
    ensures log' == log + if Loads(env, bank) then [Started(bank)] else []
    ensures ok <==> Loads(env, bank) && env.startOk
  {
    ok, log' := false, log;
    if !(bank > 0 && bank < 3) || !env.handleOk || !env.headerReadOk || !env.poolOk || !env.imageReadOk {
      return;
    }
    if |env.writes| == 0 {
      return;
    }
    var written := WriteSsbl(env.writes);
    if !written {
      return;
    }
    log' := log + [Started(bank)];
    ok := env.startOk;
  }

  /** The write of the header copy when its key mode is not NORMAL yet. */
  method NormaliseKeyMode(h: Header, log: seq<Event>) returns (h': Header, log': seq<Event>)
    ensures h' == h.(keymode := KEY_MODE_NORMAL) && log' == log + KeyEvents(h)
  {
    h', log' := h, log;
    if h.keymode != KEY_MODE_NORMAL {
      h' := h.(keymode := KEY_MODE_NORMAL);
      log' := log + [HeaderWritten(h')];
    }
  }

  /** The case of a boot mode that boots `bank`. */
  method BankCase(env: Env, bank: nat, retval: Efi, status: bool, log: seq<Event>)
    returns (retval': Efi, status': bool, log': seq<Event>)
    ensures log' == log + (if env.devidVerify then [SsblChecked(bank, env.ssblOk)] else []) +
                    (if DeviceAccepted(env) && Loads(env, bank) then [Started(bank)] else [])
    ensures retval' == if (env.devidVerify ==> env.ssblOk) && DeviceAccepted(env) && Loads(env, bank) && env.startOk
                       then retval else InvalidParameter
  {
    retval', status', log' := retval, status, log;
    if env.devidVerify {
      log' := log' + [SsblChecked(bank, env.ssblOk)];
      if !env.ssblOk {
        status', retval' := false, InvalidParameter;
      }
      if !env.devidOk {
        status', retval' := false, InvalidParameter;
        return;
      }
    }
    var ok;
    ok, log' := BootBank(env, bank, log');
    if !ok {
      status', retval' := false, InvalidParameter;
    }
  }

  /** The switch over the boot mode; `tmp` is the header copy */
  method BootModeSwitch(header: Header, env: Env, log: seq<Event>)
    returns (retval: Efi, status: bool, tmp: Header, log': seq<Event>)
    requires header.Valid()
    ensures header.bootmode == BOOT_MODE_FACTORY ==>
      && status == DeviceAccepted(env)
      && tmp == (if status then header.(keymode := KEY_MODE_NORMAL) else header)
      && log' == log + if status then KeyEvents(header) + [FactoryStarted] else []
    ensures header.bootmode != BOOT_MODE_FACTORY ==> log' == log + ModeEvents(header, env)
    ensures retval == Success <==>
      && (BootsBank(header) ==>
            (env.devidVerify ==> env.ssblOk) && DeviceAccepted(env) && Loads(env, Target(header)) && env.startOk)
      && (header.bootmode == BOOT_MODE_FACTORY ==> DeviceAccepted(env))
  {
    var curr := CurrentBank(header);
    var prev := FindPreviouslyBank(curr);
    retval, status, tmp, log' := Success, true, header, log;
    if header.bootmode == BOOT_MODE_NORMAL || header.bootmode == BOOT_MODE_UPDATE {
      retval, status, log' := BankCase(env, curr, retval, status, log');
    } else if header.bootmode == BOOT_MODE_RECOVERY {
      retval, status, log' := BankCase(env, prev, retval, status, log');
    } else if header.bootmode == BOOT_MODE_FACTORY {
      if env.devidVerify && !env.devidOk {
        retval, status := InvalidParameter, false;
      } else {
        tmp, log' := NormaliseKeyMode(tmp, log');
        log' := log' + [FactoryStarted];
      }
    } else {
      status := false;
    }
  }

  /** UefiMain from the header on */
  method UefiMain(header: Header, env: Env) returns (retval: Efi, log: seq<Event>)
    requires header.Valid()
    ensures log == Events(header, env)
    ensures FsblVerified in log <==> env.fsblOk
    ensures DiceGenerated in log <==> env.fsblOk && env.diceOk
    ensures FactoryStarted in log <==>
      header.bootmode == 4 && env.fsblOk && env.diceOk && (env.devidVerify ==> env.devidOk)
    ensures Shutdown in log <==>
      header.bootmode == 4 && !(env.fsblOk && env.diceOk && (env.devidVerify ==> env.devidOk))
    ensures forall n: nat :: Started(n) in log <==>
      && env.fsblOk && env.diceOk && (env.devidVerify ==> env.devidOk)
      && (header.bootmode == 1 || header.bootmode == 2 || header.bootmode == 3)
      && (n == 1 || n == 2) && n == Target(header)
      && env.handleOk && env.headerReadOk && env.poolOk && env.imageReadOk && true in env.writes
    ensures retval == Success <==>
      && env.fsblOk && env.diceOk
      && (header.bootmode == 1 || header.bootmode == 2 || header.bootmode == 3 ==>
            && (env.devidVerify ==> env.ssblOk && env.devidOk) && (Target(header) == 1 || Target(header) == 2)
            && env.handleOk && env.headerReadOk && env.poolOk && env.imageReadOk && true in env.writes && env.startOk)
      && (header.bootmode == 4 && env.devidVerify ==> env.devidOk)
  {
    var tmp, status := header, true;
    retval, log := Success, [];
    if !env.fsblOk {
      status, retval := false, InvalidParameter;
    } else {
      log := log + [FsblVerified];
      if !env.diceOk {
        retval, status := InvalidParameter, false;
      } else {
        log := log + [DiceGenerated];
        retval, status, tmp, log := BootModeSwitch(header, env, log);
      }
    }
    if header.bootmode == BOOT_MODE_FACTORY && !status {
      tmp, log := NormaliseKeyMode(tmp, log);
      log := log + [Shutdown];
    }
    LogMeans(header, env, log);
  }

  // ---- What a run logs, in terms of the header bytes and the results of the calls alone ----

  /** The two gates every boot mode stands behind. */
  lemma GatesLogged(h: Header, env: Env)
    requires h.Valid()
    ensures FsblVerified in Events(h, env) <==> env.fsblOk
    ensures DiceGenerated in Events(h, env) <==> env.fsblOk && env.diceOk
  {
  }

  /** The bank of a mode that boots one: the current one, in recovery mode the other one. */
  lemma TargetIs(h: Header)
    requires h.Valid()
    ensures var b := h.bootpres;
      var cur := if b[3] == 0x43 then 0x100 * b[0] as int + b[1]
                 else if b[7] == 0x43 then 0x100 * b[4] as int + b[5] else 0;
      && (h.bootmode != 3 ==> Target(h) == cur)
      && (h.bootmode == 3 && (cur == 1 || cur == 2) ==> Target(h) == 3 - cur)
      && (h.bootmode == 3 && cur != 1 && cur != 2 ==> Target(h) == 0xFFFF_FFFF)
  {
  }

  /** Exactly when bank `n` is started. The result of the SSBL check is not among the conditions. */
  lemma StartedIff(h: Header, env: Env, n: nat)
    requires h.Valid()
    ensures var b := h.bootpres;
      var cur := if b[3] == 0x43 then 0x100 * b[0] as int + b[1]
                 else if b[7] == 0x43 then 0x100 * b[4] as int + b[5] else 0;
      Started(n) in Events(h, env) <==>
        && env.fsblOk && env.diceOk && (env.devidVerify ==> env.devidOk)
        && (h.bootmode == 1 || h.bootmode == 2 || h.bootmode == 3)
        && (n == 1 || n == 2) && n == (if h.bootmode == 3 then 3 - cur else cur)
        && env.handleOk && env.headerReadOk && env.poolOk && env.imageReadOk
        && exists i :: 0 <= i < |env.writes| && env.writes[i]
  {
    TargetIs(h);
    assert AnyWrite(env) <==> exists i :: 0 <= i < |env.writes| && env.writes[i];
  }

  /** The SSBL check: made with the switch on, in a mode that boots a bank, on that bank, with its result. */
  lemma SsblCheckLogged(h: Header, env: Env, n: nat, ok: bool)
    requires h.Valid()
    ensures SsblChecked(n, ok) in Events(h, env) <==>
      && env.fsblOk && env.diceOk && env.devidVerify && ok == env.ssblOk
      && (h.bootmode == 1 || h.bootmode == 2 || h.bootmode == 3) && n == Target(h)
  {
  }

  /** How factory mode ends: the factory image is started, or the machine is shut down. */
  lemma FactoryLogged(h: Header, env: Env)
    requires h.Valid()
    ensures FactoryStarted in Events(h, env) <==>
      h.bootmode == 4 && env.fsblOk && env.diceOk && (env.devidVerify ==> env.devidOk)
    ensures Shutdown in Events(h, env) <==>
      h.bootmode == 4 && !(env.fsblOk && env.diceOk && (env.devidVerify ==> env.devidOk))
  {
  }

  /** The one header ever written: factory mode sets a key mode other than NORMAL to NORMAL. */
  lemma HeaderLogged(h: Header, env: Env, x: Header)
    requires h.Valid()
    ensures HeaderWritten(x) in Events(h, env) <==>
      h.bootmode == 4 && h.keymode != 1 && x == Header(h.rest, h.bootmode, 1, h.bootpres)
  {
  }

  /** The starts of a run, the shutdown and the two gates together. */
  lemma LogMeans(h: Header, env: Env, log: seq<Event>)
    requires h.Valid() && log == Events(h, env)
    ensures FsblVerified in log <==> env.fsblOk
    ensures DiceGenerated in log <==> env.fsblOk && env.diceOk
    ensures FactoryStarted in log <==>
      h.bootmode == 4 && env.fsblOk && env.diceOk && (env.devidVerify ==> env.devidOk)
    ensures Shutdown in log <==>
      h.bootmode == 4 && !(env.fsblOk && env.diceOk && (env.devidVerify ==> env.devidOk))
    ensures forall n: nat :: Started(n) in log <==>
      && env.fsblOk && env.diceOk && (env.devidVerify ==> env.devidOk)
      && (h.bootmode == 1 || h.bootmode == 2 || h.bootmode == 3)
      && (n == 1 || n == 2) && n == Target(h)
      && env.handleOk && env.headerReadOk && env.poolOk && env.imageReadOk && true in env.writes
  {
    GatesLogged(h, env);
    FactoryLogged(h, env);
    TargetIs(h);
    forall n: nat { StartedIff(h, env, n); }
  }

  /** Nothing is logged twice. */
  lemma LoggedOnce(h: Header, env: Env)
    requires h.Valid()
    ensures Distinct(Events(h, env))
  {
  }

  // ---- Safety of every run ----

  ghost predicate IsStart(e: Event) { e.Started? || e.FactoryStarted? }

  /**
   Nothing is started before the FSBL was verified and the DICE keys were generated: the two calls succeeded,
   and both stand in the log before the start.
   */
  lemma StartsAreTrusted(h: Header, env: Env, i: nat)
    requires h.Valid() && i < |Events(h, env)| && IsStart(Events(h, env)[i])
    ensures env.fsblOk && env.diceOk
    ensures FsblVerified in Events(h, env)[..i] && DiceGenerated in Events(h, env)[..i]
  {
    var log := Events(h, env);
    assert i > 1 && log[..i][0] == FsblVerified && log[..i][1] == DiceGenerated;
  }

  /** A bank start names bank 1 or 2: the current one, or in recovery mode the other one. */
  lemma StartedBank(h: Header, env: Env, i: nat)
    requires h.Valid() && i < |Events(h, env)|
    ensures Events(h, env)[i].Started? ==>
      var bank := Events(h, env)[i].bank;
      && 1 <= h.bootmode <= 3 && (bank == 1 || bank == 2)
      && (if h.bootmode == 3 then bank == 3 - CurrentBank(h) else bank == CurrentBank(h))
    ensures Events(h, env)[i].FactoryStarted? ==> h.bootmode == 4
  {
  }

  ghost function Writes(log: seq<Event>): nat {
    if log == [] then 0 else Writes(log[..|log| - 1]) + if log[|log| - 1].HeaderWritten? then 1 else 0
  }

  lemma {:induction false} WritesAppend(a: seq<Event>, b: seq<Event>)
    ensures Writes(a + b) == Writes(a) + Writes(b)
    decreases |b|
  {
    if b == [] {
      assert a + b == a;
    } else {
      var n := |b| - 1;
      assert (a + b)[..|a| + n] == a + b[..n];
      WritesAppend(a, b[..n]);
    }
  }

  /** Only factory mode writes the header: once if the key mode was not NORMAL, never otherwise. */
  lemma HeaderWrites(h: Header, env: Env)
    requires h.Valid()
    ensures Writes(Events(h, env)) == if h.bootmode == 4 && h.keymode != 1 then 1 else 0
  {
    var pre := if env.fsblOk then [FsblVerified] else [];
    var body := if Trusted(env) then [DiceGenerated] else [];
    var tail := if Trusted(env) then ModeEvents(h, env)
                else if h.bootmode == BOOT_MODE_FACTORY then KeyEvents(h) + [Shutdown] else [];
    assert Events(h, env) == pre + (body + tail);
    WritesAppend(pre, body + tail);
    WritesAppend(body, tail);
    assert Writes(pre) == 0 && Writes(body) == 0;
    if h.bootmode == BOOT_MODE_FACTORY {
      var last := if Trusted(env) && DeviceAccepted(env) then FactoryStarted else Shutdown;
      assert tail == KeyEvents(h) + [last];
      WritesAppend(KeyEvents(h), [last]);
    }
  }

  /** What is written differs from the header read in the key mode alone. */
  lemma HeaderWrittenIs(h: Header, env: Env, i: nat)
    requires h.Valid() && i < |Events(h, env)| && Events(h, env)[i].HeaderWritten?
    ensures Events(h, env)[i].header == h.(keymode := 1)
  {
  }

  /**
   The SSBL check is reported but gates nothing: the same banks are started whatever it says, and a bank
   is started with its check passed exactly when _SBC_DEVID_VERIFY_ is on and the check did pass.
   */
  lemma SsblCheckDoesNotGate(h: Header, env: Env, bank: nat)
    requires h.Valid()
    ensures Started(bank) in Events(h, env) <==> Started(bank) in Events(h, env.(ssblOk := !env.ssblOk))
    ensures Started(bank) in Events(h, env) ==>
              (SsblChecked(bank, true) in Events(h, env) <==> env.devidVerify && env.ssblOk)
  {
    StartedIff(h, env, bank);
    StartedIff(h, env.(ssblOk := !env.ssblOk), bank);
    if Started(bank) in Events(h, env) {
      assert Events(h, env) == [FsblVerified, DiceGenerated] +
        (if env.devidVerify then [SsblChecked(bank, env.ssblOk)] else []) + [Started(bank)];
    }
  }
}
