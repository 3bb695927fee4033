/**
 Versioned encryption keys. The cipher itself is a parameter: `enc` takes a key, the initialisation vector
 it draws and a plaintext; `dec` yields `None` where the provider throws.
 */
module KeyRotation {
  import opened Bits
  import opened Options

  type Bytes = seq<Octet>

  datatype Cipher = Cipher(enc: (Bytes, Bytes, Bytes) -> Bytes, dec: (Bytes, Bytes) -> Option<Bytes>)

  ghost predicate Lawful(c: Cipher) {
    forall key, iv, text :: c.dec(key, c.enc(key, iv, text)) == Some(text)
  }

  datatype Error = NoKeys | TooShort | UnknownVersion(version: Word32) | CipherThrew

  datatype Result<+T> = Ok(value: T) | Err(error: Error)

  type Keys = map<Word32, Bytes>

  const KEY_LENGTH: nat := 32

  /** `emplace`: a version that is present keeps its key; a key of the wrong length throws first. */
  function Added(keys: Keys, version: Word32, key: Bytes): Keys {
    if |key| != KEY_LENGTH || version in keys then keys else keys[version := key]
  }

  predicate IsHighest(keys: Keys, v: Word32) {
    v in keys && forall u :: u in keys ==> u <= v
  }

  lemma {:induction false} HighestExists(keys: Keys)
    requires keys != map[]
    ensures exists v :: IsHighest(keys, v)
    decreases |keys|
  {
    var u :| u in keys;
    var rest := keys - {u};
    if rest == map[] {
      assert forall w :: w in keys && w != u ==> w in rest;
      assert IsHighest(keys, u);
    } else {
      assert rest.Keys == keys.Keys - {u};
      assert |rest.Keys| < |keys.Keys|;
      HighestExists(rest);
      var v :| IsHighest(rest, v);
      assert forall w :: w in keys ==> w in rest || w == u;
      assert IsHighest(keys, if u <= v then v else u);
    }
  }

  /** The highest registered version. */
  function Current(keys: Keys): (v: Word32)
    requires keys != map[]
    ensures IsHighest(keys, v)
  {
    HighestExists(keys);
    var v :| IsHighest(keys, v);
    v
  }

  function Sealed(c: Cipher, keys: Keys, iv: Bytes, text: Bytes): Result<Bytes> {
    if keys == map[] then Err(NoKeys)
    else Ok(Stored(Current(keys)) + c.enc(keys[Current(keys)], iv, text))
  }

  function Opened(c: Cipher, keys: Keys, data: Bytes): Result<Bytes> {
    if |data| < 4 then Err(TooShort)
    else
      LoadIsWord(data[0], data[1], data[2], data[3]);
      var version: Word32 := Load(data[0], data[1], data[2], data[3]);
      if version !in keys then Err(UnknownVersion(version))
      else
        var text := c.dec(keys[version], data[4..]);
        if text.None? then Err(CipherThrew) else Ok(text.value)
  }

  class KeyRotationService {
    const cipher: Cipher
    var keys: Keys

    constructor (cipher: Cipher)
      ensures this.cipher == cipher && keys == map[]
    {
      this.cipher := cipher;
      keys := map[];
    }

    method AddKey(version: Word32, key: Bytes) returns (ok: bool)
      modifies this
      ensures ok <==> |key| == KEY_LENGTH
      ensures keys == Added(old(keys), version, key)
      ensures keys == if |key| == 32 && version !in old(keys) then old(keys)[version := key] else old(keys)
    {
      if |key| != KEY_LENGTH {
        return false;
      }
      if version !in keys {
        keys := keys[version := key];
      }
      return true;
    }

    method Encrypt(iv: Bytes, text: Bytes) returns (r: Result<Bytes>)
      ensures r == Sealed(cipher, keys, iv, text)
    {
      hide And, Current;
      if keys == map[] {
        return Err(NoKeys);
      }
      var version := Current(keys);
      var ciphertext := cipher.enc(keys[version], iv, text);
      var output := new Octet[4 + |ciphertext|];
      StoredOctets(version);
      output[0] := And(version / 0x100_0000, 0xFF);
      output[1] := And(version / 0x1_0000, 0xFF);
      output[2] := And(version / 0x100, 0xFF);
      output[3] := And(version, 0xFF);
      assert output[..4] == Stored(version);
      for i := 0 to |ciphertext|
        invariant output[..4] == Stored(version)
        invariant output[4..4 + i] == ciphertext[..i]
      {
        output[4 + i] := ciphertext[i];
      }
      assert output[..] == output[..4] + output[4..4 + |ciphertext|];
      assert output[..] == Stored(version) + ciphertext;
      r := Ok(output[..]);
    }

    method Decrypt(data: Bytes) returns (r: Result<Bytes>)
      ensures r == Opened(cipher, keys, data)
      ensures |data| < 4 ==> r == Err(TooShort)
      ensures |data| >= 4 ==>
                var version := Word(data[0], data[1], data[2], data[3]);
                && (version !in keys ==> r == Err(UnknownVersion(version)))
                && (version in keys ==>
                      var text := cipher.dec(keys[version], data[4..]);
                      r == if text.None? then Err(CipherThrew) else Ok(text.value))
    {
      if |data| < 4 {
        return Err(TooShort);
      }
      LoadIsWord(data[0], data[1], data[2], data[3]);
      var version: Word32 := Load(data[0], data[1], data[2], data[3]);
      if version !in keys {
        return Err(UnknownVersion(version));
      }
      var text := cipher.dec(keys[version], data[4..]);
      r := if text.None? then Err(CipherThrew) else Ok(text.value);
    }

    method CurrentVersion() returns (r: Result<Word32>)
      ensures if keys == map[] then r == Err(NoKeys) else r.Ok? && IsHighest(keys, r.value)
    {
      r := if keys == map[] then Err(NoKeys) else Ok(Current(keys));
    }
  }

  // ----- every run of registrations and encryptions -----

  datatype Op = Add(version: Word32, key: Bytes) | Seal(iv: Bytes, text: Bytes)

  /** A blob that was produced, and from what. */
  datatype Blob = Blob(data: Bytes, text: Bytes, version: Word32)

  datatype Trace = Trace(keys: Keys, blobs: seq<Blob>)

  function Run(c: Cipher, ops: seq<Op>): Trace {
    if ops == [] then Trace(map[], [])
    else
      var t := Run(c, ops[..|ops| - 1]);
      match ops[|ops| - 1]
      case Add(version, key) => t.(keys := Added(t.keys, version, key))
      case Seal(iv, text) =>
        if t.keys == map[] then t
        else
          t.(blobs := t.blobs + [Blob(Sealed(c, t.keys, iv, text).value, text, Current(t.keys))])
  }

  // ----- what a run registers and produces, read off its operations -----

  /** The operation registers version v, if nothing has before. */
  predicate Registers(op: Op, v: Word32) {
    op.Add? && op.version == v && |op.key| == 32
  }

  /**
   A version is registered exactly when some operation added it with a key of 32 octets, and its key is that
   of the first such operation.
   */
  lemma {:induction false} RegisteredExactly(c: Cipher, ops: seq<Op>, v: Word32)
    ensures v in Run(c, ops).keys <==> exists i :: 0 <= i < |ops| && Registers(ops[i], v)
    ensures forall i :: 0 <= i < |ops| && Registers(ops[i], v) && (forall j :: 0 <= j < i ==> !Registers(ops[j], v)) ==>
              v in Run(c, ops).keys && Run(c, ops).keys[v] == ops[i].key
  {
    if ops != [] {
      hide Sealed, Current;
      var n := |ops| - 1;
      var init := ops[..n];
      RegisteredExactly(c, init, v);
      assert forall i :: 0 <= i < n ==> init[i] == ops[i];
      assert Run(c, ops).keys == if ops[n].Add? then Added(Run(c, init).keys, ops[n].version, ops[n].key) else Run(c, init).keys;
    }
  }

  predicate HasKey(ops: seq<Op>) {
    exists i :: 0 <= i < |ops| && ops[i].Add? && |ops[i].key| == 32
  }

  /** The plaintexts of the encryptions that come after some key was registered. */
  function SealedTexts(ops: seq<Op>): seq<Bytes> {
    if ops == [] then []
    else
      var init, op := ops[..|ops| - 1], ops[|ops| - 1];
      SealedTexts(init) + (if op.Seal? && HasKey(init) then [op.text] else [])
  }

  function Texts(blobs: seq<Blob>): (r: seq<Bytes>)
    ensures |r| == |blobs|
  {
    seq(|blobs|, i requires 0 <= i < |blobs| => blobs[i].text)
  }

  lemma KeysPresent(c: Cipher, ops: seq<Op>)
    ensures Run(c, ops).keys != map[] <==> HasKey(ops)
  {
    hide Run;
    if HasKey(ops) {
      var i :| 0 <= i < |ops| && ops[i].Add? && |ops[i].key| == 32;
      RegisteredExactly(c, ops, ops[i].version);
      assert Registers(ops[i], ops[i].version);
    }
    if Run(c, ops).keys != map[] {
      var v :| v in Run(c, ops).keys;
      RegisteredExactly(c, ops, v);
    }
  }

  /** Every encryption after the first registered key produces a blob, in order, and no other does. */
  lemma {:induction false} ProducedExactly(c: Cipher, ops: seq<Op>)
    ensures Texts(Run(c, ops).blobs) == SealedTexts(ops)
  {
    if ops != [] {
      hide Sealed, Current, Added, HasKey;
      ProducedExactly(c, ops[..|ops| - 1]);
      KeysPresent(c, ops[..|ops| - 1]);
    }
  }

  /** An encryption uses the highest version there is and spells it in the first four octets, most significant first. */
  lemma SealUsesHighest(c: Cipher, ops: seq<Op>, iv: Bytes, text: Bytes)
    requires HasKey(ops)
    ensures var keys, t := Run(c, ops).keys, Run(c, ops + [Seal(iv, text)]);
            && |t.blobs| == |Run(c, ops).blobs| + 1
            && var b := t.blobs[|t.blobs| - 1];
            && b.text == text && b.version in keys && (forall u :: u in keys ==> u <= b.version)
            && |b.data| >= 4 && Word(b.data[0], b.data[1], b.data[2], b.data[3]) == b.version
            && b.data[4..] == c.enc(keys[b.version], iv, text)
  {
    assert (ops + [Seal(iv, text)])[..|ops|] == ops;
    KeysPresent(c, ops);
    var v := Current(Run(c, ops).keys);
    LoadStored(v);
    LoadIsWord(Stored(v)[0], Stored(v)[1], Stored(v)[2], Stored(v)[3]);
    hide Stored, Load, Word, Current;
    var b := Run(c, ops + [Seal(iv, text)]).blobs[|Run(c, ops).blobs|];
    assert b.data == Stored(v) + c.enc(Run(c, ops).keys[v], iv, text);
  }

  /** The blob carries its version in front and its version's key reads it. */
  ghost predicate Readable(c: Cipher, keys: Keys, b: Blob) {
    && |b.data| >= 4 && b.version in keys
    && Stored(b.version) == b.data[..4]
    && c.dec(keys[b.version], b.data[4..]) == Some(b.text)
  }

  lemma ReadableOpens(c: Cipher, keys: Keys, b: Blob)
    requires Readable(c, keys, b)
    ensures Opened(c, keys, b.data) == Ok(b.text)
  {
    LoadStored(b.version);
    hide Stored, Load;
    assert forall i :: 0 <= i < 4 ==> b.data[i] == b.data[..4][i];
  }

  lemma SealedReadable(c: Cipher, keys: Keys, iv: Bytes, text: Bytes)
    requires Lawful(c) && keys != map[]
    ensures Readable(c, keys, Blob(Sealed(c, keys, iv, text).value, text, Current(keys)))
  {
    hide Stored;
    var data := Sealed(c, keys, iv, text).value;
    assert data[..4] == Stored(Current(keys)) && data[4..] == c.enc(keys[Current(keys)], iv, text);
  }

  ghost predicate RunInv(c: Cipher, t: Trace) {
    && (forall i :: 0 <= i < |t.blobs| ==> Readable(c, t.keys, t.blobs[i]))
    && (forall i, j :: 0 <= i < j < |t.blobs| ==> t.blobs[i].version <= t.blobs[j].version)
    && (forall i :: 0 <= i < |t.blobs| ==> t.blobs[i].version <= Current(t.keys))
  }

  lemma {:induction false} RunsKeepInv(c: Cipher, ops: seq<Op>)
    requires Lawful(c)
    ensures RunInv(c, Run(c, ops))
  {
    if ops != [] {
      var t, op := Run(c, ops[..|ops| - 1]), ops[|ops| - 1];
      RunsKeepInv(c, ops[..|ops| - 1]);
      match op
      case Add(version, key) =>
        AddInv(c, t, version, key);
      case Seal(iv, text) =>
        if t.keys != map[] {
          SealedReadable(c, t.keys, iv, text);
        }
    }
  }

  lemma AddInv(c: Cipher, t: Trace, version: Word32, key: Bytes)
    requires RunInv(c, t)
    ensures RunInv(c, t.(keys := Added(t.keys, version, key)))
  {
  }

  /**
   Over every run, repeated versions included: every blob ever produced decrypts to its plaintext now, and
   the version prefixes never decrease.
   */
  lemma BlobsStayReadable(c: Cipher, ops: seq<Op>, i: nat)
    requires Lawful(c) && i < |Run(c, ops).blobs|
    ensures var t := Run(c, ops); Opened(c, t.keys, t.blobs[i].data) == Ok(t.blobs[i].text)
    ensures forall j :: 0 <= j <= i ==> Run(c, ops).blobs[j].version <= Run(c, ops).blobs[i].version
  {
    hide Run, Opened;
    RunsKeepInv(c, ops);
    ReadableOpens(c, Run(c, ops).keys, Run(c, ops).blobs[i]);
  }
}
