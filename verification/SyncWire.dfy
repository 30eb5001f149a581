/** The app-state messages, and the operations on a single record. Cryptography is the
    record `Primitives`: any functions of these types, with no law assumed of them beyond
    an HMAC being 32 bytes long. */
module SyncWire {
  import opened Common
  import opened LtHash

  type Mac = m: Bytes | |m| == 32 witness seq(32, _ => 0)

  datatype Op = Set | Remove

  /** `SyncdOperation` is an open enum: absent means SET, unknown codes survive decoding. */
  datatype WireOp = Absent | Known(op: Op) | Unknown(code: int)

  datatype Record = Record(index: Option<Bytes>, value: Option<Bytes>, keyId: Option<Bytes>)
  datatype Mutation = Mutation(operation: WireOp, record: Option<Record>)

  datatype Patch = Patch(
    version: nat, snapshotMac: Option<Bytes>, patchMac: Option<Bytes>, keyId: Option<Bytes>,
    mutations: seq<Mutation>, external: Option<Bytes>)

  datatype Snapshot = Snapshot(version: nat, records: seq<Record>, mac: Option<Bytes>, keyId: Option<Bytes>)

  /** Expanded keys are only ever handed to a primitive. */
  datatype Keys = Keys(material: Bytes)
  type KeyMap = map<Bytes, Keys>

  /** A decrypted `SyncActionData`. */
  datatype ActionData = ActionData(index: Option<Bytes>, value: Option<Bytes>)

  datatype SyncError =
    | MissingValueBlob | ValueBlobTooShort | MismatchingContentMac | DecryptionFailed
    | MissingIndexMac | MismatchingIndexMac | MissingKeyId | KeyNotFound
    | SnapshotMacMissing | SnapshotMacMismatch
    | PatchVersionMismatch | UnsupportedOperation(code: int)
    | PatchMacMismatch | PatchSnapshotMacMismatch | DuplicateIndexInPatch | StoreFailed

  datatype Primitives = Primitives(
    derive: Bytes -> Hash,
    expand: Bytes -> Keys,
    snapshotMac: (Hash, nat, string, Keys) -> Bytes,
    patchMac: (Option<Bytes>, seq<Bytes>, nat, string, Keys) -> Bytes,
    contentMac: (Op, Bytes, Bytes, Keys) -> Mac,
    open: (Bytes, Keys) -> Option<ActionData>,
    indexMac: (Bytes, Keys) -> Mac)

  datatype HashState = HashState(version: nat, hash: Hash, macMismatchFatal: bool, bootstrapped: bool) {
    predicate HasBaseline() { bootstrapped || version > 0 }

    /** Never synced, or synced and empty: nothing a patch could be anchored to. */
    predicate Unseeded() { version == 0 && hash == EmptyHash() }
  }

  function DefaultState(): HashState { HashState(0, EmptyHash(), false, false) }

  datatype MacPair = MacPair(index: Bytes, value: Bytes)
  datatype Decoded = Decoded(op: Op, action: ActionData)

  function OpOf(m: Mutation): Op
    requires !m.operation.Unknown?
  {
    if m.operation.Absent? then Set else m.operation.op
  }

  function IndexOf(m: Mutation): Option<Bytes> {
    if m.record.Some? then m.record.value.index else None
  }

  function ValueOf(m: Mutation): Option<Bytes> {
    if m.record.Some? then m.record.value.value else None
  }

  /** `value_mac_start`: JavaScript's `slice(len - 32)` on a blob of `len` bytes, where a
      negative start counts from the end again. */
  function ValueMacStart(len: nat): (start: nat)
    ensures start <= len
    ensures len >= 32 ==> len - start == 32
    ensures len <= 16 ==> start == 0
    ensures 16 <= len < 32 ==> len - start == 32 - len
  {
    if len >= 32 then len - 32 else if 2 * len >= 32 then 2 * len - 32 else 0
  }

  function ValueMacTail(blob: Bytes): Bytes {
    blob[ValueMacStart(|blob|)..]
  }

  /** `version_to_64_bit_network_order`: only the low 32 bits of a version reach a MAC. */
  function MacVersion(v: nat): (w: nat)
    ensures w < 0x1_0000_0000
  {
    v % 0x1_0000_0000
  }

  function GenerateSnapshotMac(p: Primitives, hash: Hash, version: nat, name: string, keys: Keys): Bytes {
    p.snapshotMac(hash, MacVersion(version), name, keys)
  }

  /** The value tails `generate_patch_mac` feeds: every mutation's, REMOVEs included. */
  function Tails(ms: seq<Mutation>): seq<Bytes> {
    if ms == [] then []
    else
      var rest, value := ms[..|ms| - 1], ValueOf(ms[|ms| - 1]);
      Tails(rest) + if value.Some? then [ValueMacTail(value.value)] else []
  }

  function GeneratePatchMac(p: Primitives, patch: Patch, version: nat, name: string, keys: Keys): Bytes {
    p.patchMac(patch.snapshotMac, Tails(patch.mutations), MacVersion(version), name, keys)
  }

  function IndexBytes(a: ActionData): Bytes { if a.index.Some? then a.index.value else [] }

  /** `decode_record`. The value MAC it returns is the blob's last 32 bytes. */
  function DecodeRecord(p: Primitives, op: Op, r: Record, keys: Keys, keyId: Bytes, validate: bool)
    : (res: Result<(Decoded, MacPair), SyncError>)
    ensures res.Ok? ==>
      && r.value.Some? && |r.value.value| >= 48 && r.index.Some?
      && res.value.1 == MacPair(r.index.value, ValueMacTail(r.value.value))
      && (validate ==> |r.index.value| == 32)
  {
    if r.value.None? then Err(MissingValueBlob)
    else
      var blob := r.value.value;
      if |blob| < 48 then Err(ValueBlobTooShort)
      else
        var sealed, valueMac := blob[..|blob| - 32], blob[|blob| - 32..];
        if validate && p.contentMac(op, sealed, keyId, keys) != valueMac then Err(MismatchingContentMac)
        else
          var plain := p.open(sealed, keys);
          if plain.None? then Err(DecryptionFailed)
          else if r.index.None? then Err(MissingIndexMac)
          else if validate && p.indexMac(IndexBytes(plain.value), keys) != r.index.value then Err(MismatchingIndexMac)
          else Ok((Decoded(op, plain.value), MacPair(r.index.value, valueMac)))
  }
}
