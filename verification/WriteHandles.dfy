/** Random-access write handles on local files, under the quota of their point. */
module WriteHandles {
  import opened Prelude

  newtype Byte = b: int | 0 <= b < 256

  // ── What a file does ──────────────────────────────────────────────────────

  function Zeros(n: nat): (z: seq<Byte>)
    ensures |z| == n && forall i :: 0 <= i < n ==> z[i] == 0
  {
    seq(n, _ => 0)
  }

  function PadTo(c: seq<Byte>, n: nat): seq<Byte> {
    if |c| >= n then c else c + Zeros(n - |c|)
  }

  /** `seek` followed by `write_all`; writing nothing leaves the file alone. */
  function Overwrite(c: seq<Byte>, offset: nat, data: seq<Byte>): seq<Byte> {
    if data == [] then c
    else
      var p := PadTo(c, offset + |data|);
      p[..offset] + data + p[offset + |data|..]
  }

  function SetLen(c: seq<Byte>, n: nat): seq<Byte> { PadTo(c, n)[..n] }

  // ── Reference: an endless array of bytes and an extent ────────────────────

  datatype Image = Image(at: nat -> Byte, size: nat)

  datatype Op = WriteAt(offset: nat, data: seq<Byte>) | SetLength(n: nat)

  function Draw(img: Image, op: Op, append: bool): Image {
    match op
    case WriteAt(given, data) =>
      var offset := if append then img.size else given;
      if data == [] then img
      else Image((i: nat) => if offset <= i < offset + |data| then data[i - offset] else img.at(i),
                 Max(img.size, offset + |data|))
    case SetLength(n) => Image((i: nat) => if i < n then img.at(i) else 0, n)
  }

  /** The file shows the image: same extent, same bytes, zeros beyond. */
  ghost predicate Shows(c: seq<Byte>, img: Image) {
    |c| == img.size && forall i: nat :: img.at(i) == if i < |c| then c[i] else 0
  }

  lemma OverwriteDraws(c: seq<Byte>, img: Image, offset: nat, data: seq<Byte>, append: bool)
    requires Shows(c, img) && (append ==> offset == |c|)
    ensures Shows(Overwrite(c, offset, data), Draw(img, WriteAt(offset, data), append))
  {
  }

  lemma SetLenDraws(c: seq<Byte>, img: Image, n: nat, append: bool)
    requires Shows(c, img)
    ensures Shows(SetLen(c, n), Draw(img, SetLength(n), append))
  {
  }

  // ── A handle ──────────────────────────────────────────────────────────────

  datatype Config = Config(maxBytes: Option<nat>, base: nat, append: bool)

  datatype Handle = Handle(file: seq<Byte>, len: nat)

  function OffsetOf(cfg: Config, h: Handle, op: Op): nat
    requires op.WriteAt?
  {
    if cfg.append then |h.file| else op.offset
  }

  function NewLen(cfg: Config, h: Handle, op: Op): nat {
    match op
    case WriteAt(_, data) => Max(h.len, OffsetOf(cfg, h, op) + |data|)
    case SetLength(n) => n
  }

  /** The checks of `WriteAt` overflow to a refusal, that of `SetLength`
      saturates. */
  predicate Accepts(cfg: Config, h: Handle, op: Op) {
    match op
    case WriteAt(_, data) =>
      && OffsetOf(cfg, h, op) + |data| <= U64_MAX
      && (cfg.maxBytes.Some? ==>
            cfg.base + NewLen(cfg, h, op) <= U64_MAX && cfg.base + NewLen(cfg, h, op) <= cfg.maxBytes.value)
    case SetLength(n) => cfg.maxBytes.Some? ==> SatAdd(cfg.base, n) <= cfg.maxBytes.value
  }

  function Apply(cfg: Config, h: Handle, op: Op): Handle {
    if !Accepts(cfg, h, op) then h
    else
      match op
      case WriteAt(_, data) => Handle(Overwrite(h.file, OffsetOf(cfg, h, op), data), NewLen(cfg, h, op))
      case SetLength(n) => Handle(SetLen(h.file, n), n)
  }

  /** A write that fits is accepted: exactly when its end is a 64-bit number and the
      point, with the file reaching as far as the longer of length and end, keeps
      within the quota. An appending handle writes at the end of the file. */
  lemma FittingWriteIsAccepted(cfg: Config, h: Handle, offset: nat, data: seq<Byte>)
    requires cfg.maxBytes.Some? ==> cfg.maxBytes.value <= U64_MAX
    ensures var end := (if cfg.append then |h.file| else offset) + |data|;
            Accepts(cfg, h, WriteAt(offset, data))
            <==> end <= U64_MAX
                 && (cfg.maxBytes.None?
                     || (cfg.base + h.len <= cfg.maxBytes.value && cfg.base + end <= cfg.maxBytes.value))
  {
  }

  /** A resize is accepted exactly when the point keeps within the quota, or the quota
      is the largest number there is. */
  lemma FittingResizeIsAccepted(cfg: Config, h: Handle, n: nat)
    requires cfg.maxBytes.Some? ==> cfg.maxBytes.value <= U64_MAX
    ensures Accepts(cfg, h, SetLength(n))
            <==> cfg.maxBytes.None? || cfg.base + n <= cfg.maxBytes.value || cfg.maxBytes.value == U64_MAX
  {
  }

  predicate WithinQuota(cfg: Config, h: Handle) {
    cfg.maxBytes.Some? ==> cfg.base + h.len <= cfg.maxBytes.value
  }

  predicate HandleInv(cfg: Config, h: Handle) { |h.file| <= h.len && WithinQuota(cfg, h) }

  /** The saturating check lets a resize through that overflows 64 bits, when the
      quota itself is the largest number there is. */
  predicate Overflows(cfg: Config, op: Op) {
    op.SetLength? && cfg.maxBytes == Some(U64_MAX) && cfg.base + op.n > U64_MAX
  }

  /** Such a resize exists: a byte of other files and the largest length there is. */
  lemma OverflowHappens()
    ensures var cfg, h, op := Config(Some(U64_MAX), 1, false), Handle([], 0), Op.SetLength(U64_MAX);
            HandleInv(cfg, h) && Accepts(cfg, h, op) && Overflows(cfg, op) && !HandleInv(cfg, Apply(cfg, h, op))
  {
  }

  lemma OverwriteLength(c: seq<Byte>, offset: nat, data: seq<Byte>)
    ensures |Overwrite(c, offset, data)| == if data == [] then |c| else Max(|c|, offset + |data|)
  {
  }

  /** The invariant survives a call exactly when the call does not overflow. */
  lemma InvAfterIff(cfg: Config, h: Handle, op: Op)
    requires HandleInv(cfg, h) && (cfg.maxBytes.Some? ==> cfg.maxBytes.value <= U64_MAX)
    ensures HandleInv(cfg, Apply(cfg, h, op)) <==> !Overflows(cfg, op)
  {
    if op.WriteAt? { OverwriteLength(h.file, OffsetOf(cfg, h, op), op.data); }
  }

  /** A write of nothing beyond the end: it moves the recorded length only. */
  predicate StretchesEmptily(cfg: Config, h: Handle, op: Op) {
    op.WriteAt? && op.data == [] && OffsetOf(cfg, h, op) > |h.file|
  }

  /** Writing nothing at offset 1 of an empty file records a length of 1. */
  lemma EmptyStretchHappens()
    ensures var cfg, h, op := Config(None, 0, false), Handle([], 0), Op.WriteAt(1, []);
            StretchesEmptily(cfg, h, op) && Accepts(cfg, h, op) && Apply(cfg, h, op) == Handle([], 1)
  {
  }

  /** From equal lengths, an accepted call keeps them equal unless it writes
      nothing beyond the end. */
  lemma LengthExactIff(cfg: Config, h: Handle, op: Op)
    requires |h.file| == h.len && Accepts(cfg, h, op)
    ensures |Apply(cfg, h, op).file| == Apply(cfg, h, op).len <==> !StretchesEmptily(cfg, h, op)
  {
    if op.WriteAt? { OverwriteLength(h.file, OffsetOf(cfg, h, op), op.data); }
  }

  lemma ApplyDraws(cfg: Config, h: Handle, img: Image, op: Op)
    requires Shows(h.file, img) && Accepts(cfg, h, op)
    ensures Shows(Apply(cfg, h, op).file, Draw(img, op, cfg.append))
  {
    match op
    case WriteAt(_, data) => OverwriteDraws(h.file, img, OffsetOf(cfg, h, op), data, cfg.append);
    case SetLength(n) => SetLenDraws(h.file, img, n, cfg.append);
  }

  function Run(cfg: Config, h: Handle, ops: seq<Op>): Handle
    decreases |ops|
  {
    if ops == [] then h else Run(cfg, Apply(cfg, h, ops[0]), ops[1..])
  }

  /** The calls of a run that were accepted. */
  function Accepted(cfg: Config, h: Handle, ops: seq<Op>): seq<Op>
    decreases |ops|
  {
    if ops == [] then []
    else (if Accepts(cfg, h, ops[0]) then [ops[0]] else []) + Accepted(cfg, Apply(cfg, h, ops[0]), ops[1..])
  }

  function DrawAll(img: Image, ops: seq<Op>, append: bool): Image
    decreases |ops|
  {
    if ops == [] then img else DrawAll(Draw(img, ops[0], append), ops[1..], append)
  }

  /** Over any sequence of calls: the length invariant and the quota hold, and
      the file shows exactly the accepted calls drawn on the reference image;
      refused calls leave no trace. */
  lemma {:induction false} HandleCorrect(cfg: Config, h: Handle, img: Image, ops: seq<Op>)
    requires HandleInv(cfg, h) && Shows(h.file, img)
    requires cfg.maxBytes.Some? ==> cfg.maxBytes.value <= U64_MAX
    requires forall k :: 0 <= k < |ops| ==> !Overflows(cfg, ops[k])
    ensures var t := Run(cfg, h, ops);
            && HandleInv(cfg, t)
            && Shows(t.file, DrawAll(img, Accepted(cfg, h, ops), cfg.append))
    decreases |ops|
  {
    if ops != [] {
      var op, next := ops[0], Apply(cfg, h, ops[0]);
      var rest := Accepted(cfg, next, ops[1..]);
      InvAfterIff(cfg, h, op);
      if Accepts(cfg, h, op) {
        ApplyDraws(cfg, h, img, op);
        HandleCorrect(cfg, next, Draw(img, op, cfg.append), ops[1..]);
        assert ([op] + rest)[1..] == rest;
      } else {
        HandleCorrect(cfg, next, img, ops[1..]);
        assert Accepted(cfg, h, ops) == rest;
      }
    }
  }

  ghost predicate NeverStretches(cfg: Config, h: Handle, ops: seq<Op>)
    decreases |ops|
  {
    ops == [] ||
    ((Accepts(cfg, h, ops[0]) ==> !StretchesEmptily(cfg, h, ops[0]))
     && NeverStretches(cfg, Apply(cfg, h, ops[0]), ops[1..]))
  }

  /** Without writes of nothing beyond the end the recorded length is the length
      of the file. */
  lemma {:induction false} LengthIsFileLength(cfg: Config, h: Handle, ops: seq<Op>)
    requires |h.file| == h.len && NeverStretches(cfg, h, ops)
    ensures |Run(cfg, h, ops).file| == Run(cfg, h, ops).len
    decreases |ops|
  {
    if ops != [] {
      if Accepts(cfg, h, ops[0]) { LengthExactIff(cfg, h, ops[0]); }
      LengthIsFileLength(cfg, Apply(cfg, h, ops[0]), ops[1..]);
    }
  }

  // ── The handle object ─────────────────────────────────────────────────────

  class WriteHandle {
    const cfg: Config
    var file: seq<Byte>
    var len: nat
    var expired: bool

    ghost function State(): Handle
      reads this
    {
      Handle(file, len)
    }

    constructor (cfg: Config, file: seq<Byte>, len: nat)
      ensures this.cfg == cfg && State() == Handle(file, len) && !expired
    {
      this.cfg, this.file, this.len, expired := cfg, file, len, false;
    }

    /** Opens a file of a point whose files take `totalUsed` bytes in all. */
    static method Open(existing: seq<Byte>, totalUsed: nat, maxBytes: Option<nat>, overwrite: bool, append: bool)
      returns (h: Option<WriteHandle>)
      requires |existing| <= U64_MAX
      ensures h.Some? ==>
                && fresh(h.value) && !h.value.expired
                && h.value.cfg.maxBytes == maxBytes && h.value.cfg.append == append
                && HandleInv(h.value.cfg, h.value.State())
                && h.value.file == (if overwrite then [] else existing) && h.value.len == |h.value.file|
                && (maxBytes.Some? ==> h.value.cfg.base == SatSub(totalUsed, |existing|))
      ensures h.None? ==>
                maxBytes.Some? &&
                SatSub(totalUsed, |existing|) + (if overwrite then 0 else |existing|) > Min(maxBytes.value, U64_MAX)
    {
      var initial := if overwrite then 0 else |existing|;
      var base := 0;
      if maxBytes.Some? {
        base := SatSub(totalUsed, |existing|);
        if base + initial > U64_MAX || base + initial > maxBytes.value {
          return None;
        }
      }
      var content := existing;
      if overwrite {
        content := [];
      }
      var handle := new WriteHandle(Config(maxBytes, base, append), content, initial);
      h := Some(handle);
    }

    method WriteAt(offset: nat, data: seq<Byte>) returns (ok: bool)
      modifies this`file, this`len
      ensures ok == (!expired && Accepts(cfg, old(State()), Op.WriteAt(offset, data)))
      ensures State() == if ok then Apply(cfg, old(State()), Op.WriteAt(offset, data)) else old(State())
    {
      if expired {
        return false;
      }
      var writeOffset := if cfg.append then |file| else offset;
      if writeOffset + |data| > U64_MAX {
        return false;
      }
      var newLen := Max(len, writeOffset + |data|);
      if cfg.maxBytes.Some? {
        if cfg.base + newLen > U64_MAX {
          return false;
        }
        if cfg.base + newLen > cfg.maxBytes.value {
          return false;
        }
      }
      file := Overwrite(file, writeOffset, data);
      len := newLen;
      ok := true;
    }

    method SetLength(n: nat) returns (ok: bool)
      modifies this`file, this`len
      ensures ok == (!expired && Accepts(cfg, old(State()), Op.SetLength(n)))
      ensures State() == if ok then Apply(cfg, old(State()), Op.SetLength(n)) else old(State())
    {
      if expired {
        return false;
      }
      if cfg.maxBytes.Some? {
        if SatAdd(cfg.base, n) > cfg.maxBytes.value {
          return false;
        }
      }
      file := SetLen(file, n);
      len := n;
      ok := true;
    }

    method Close()
      modifies this`expired
      ensures expired
    {
      expired := true;
    }
  }
}
