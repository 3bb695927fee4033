/** HMAC-SHA-256 of the token signer against section 2 of RFC 2104. */
module Hmac {
  import opened Bits
  import opened Sha256

  const BLOCK: nat := 64

  /** The key as the first step of the construction leaves it: one block, hashed first if too long. */
  function BlockKey(key: seq<Octet>): (k: seq<Octet>)
    ensures |k| == BLOCK
  {
    var k := if |key| > BLOCK then Hash(key) else key;
    k + Zeros(BLOCK - |k|)
  }

  function XorOctet(a: Octet, b: Octet): (r: Octet) {
    assert Pow2(8) == 256;
    XorBound(a, b, 8);
    Xor(a, b)
  }

  function XorPad(k: seq<Octet>, pad: Octet): (r: seq<Octet>)
    ensures |r| == |k|
  {
    seq(|k|, i requires 0 <= i < |k| => XorOctet(pad, k[i]))
  }

  function Mac(key: seq<Octet>, msg: seq<Octet>): (m: seq<Octet>)
    ensures |m| == 32
  {
    var k := BlockKey(key);
    Hash(XorPad(k, 0x5c) + Hash(XorPad(k, 0x36) + msg))
  }

  /** `hmac_sha256_impl`, with the two pads combined with the key in place. */
  method HmacSha256(key: seq<Octet>, msg: seq<Octet>) returns (mac: seq<Octet>)
    ensures mac == Mac(key, msg)
  {
    hide Hash, Xor, XorOctet;
    var k := key;
    if |k| > BLOCK {
      k := ComputeHash(k);
    }
    k := k + Zeros(BLOCK - |k|);
    var ipad, opad := new Octet[BLOCK](_ => 0x36), new Octet[BLOCK](_ => 0x5c);
    for i := 0 to BLOCK
      invariant forall j :: i <= j < BLOCK ==> ipad[j] == 0x36 && opad[j] == 0x5c
      invariant forall j :: 0 <= j < i ==> ipad[j] == XorOctet(0x36, k[j]) && opad[j] == XorOctet(0x5c, k[j])
    {
      ipad[i] := XorOctet(ipad[i], k[i]);
      opad[i] := XorOctet(opad[i], k[i]);
    }
    assert ipad[..] == XorPad(k, 0x36);
    assert opad[..] == XorPad(k, 0x5c);
    var inner := ComputeHash(ipad[..] + msg);
    mac := ComputeHash(opad[..] + inner);
  }

  /** The pads lose nothing: a padded block determines the key block. */
  lemma XorPadInjective(k: seq<Octet>, l: seq<Octet>, pad: Octet)
    requires |k| == |l| && XorPad(k, pad) == XorPad(l, pad)
    ensures k == l
  {
    forall i | 0 <= i < |k|
      ensures k[i] == l[i]
    {
      assert XorPad(k, pad)[i] == XorPad(l, pad)[i];
      XorCancels(pad, k[i], l[i]);
    }
  }

  lemma {:induction false} XorCancels(p: nat, a: nat, b: nat)
    requires Xor(p, a) == Xor(p, b)
    ensures a == b
  {
    XorStep(p, a);
    XorStep(p, b);
    if p != 0 {
      XorCancels(p / 2, a / 2, b / 2);
    }
  }

  /**
   The construction told octet by octet: `k` is the secret, or its hash if the secret is longer than a block;
   the outer block is k xor 0x5c and comes before the inner hash, the inner one is k xor 0x36 and comes before
   the message; beyond the end of k the pads stand alone.
   */
  lemma MacExactly(key: seq<Octet>, msg: seq<Octet>, k: seq<Octet>, inner: seq<Octet>, outer: seq<Octet>)
    requires k == if |key| > 64 then Hash(key) else key
    requires |inner| == |outer| == 64
    requires forall i :: 0 <= i < |k| ==> inner[i] == Xor(k[i], 0x36) && outer[i] == Xor(k[i], 0x5c)
    requires forall i :: |k| <= i < 64 ==> inner[i] == 0x36 && outer[i] == 0x5c
    ensures Mac(key, msg) == Hash(outer + Hash(inner + msg))
  {
    hide Hash, Xor;
    assert BlockKey(key) == k + Zeros(64 - |k|);
    forall i | 0 <= i < 64
      ensures inner[i] == XorPad(BlockKey(key), 0x36)[i] && outer[i] == XorPad(BlockKey(key), 0x5c)[i]
    {
      if i < |k| {
        XorComm(k[i], 0x36);
        XorComm(k[i], 0x5c);
      } else {
        XorZero(0x36);
        XorZero(0x5c);
      }
    }
    assert inner == XorPad(BlockKey(key), 0x36) && outer == XorPad(BlockKey(key), 0x5c);
  }

  lemma {:induction false} XorComm(a: nat, b: nat)
    ensures Xor(a, b) == Xor(b, a)
  {
    if a != 0 && b != 0 { XorComm(a / 2, b / 2); }
  }

  lemma XorZero(a: nat)
    ensures Xor(a, 0) == a
  {}

  /**
   Secrets that are one key to HMAC: appending zero octets to a short secret, or replacing a long one by
   its hash, changes no MAC of any message.
   */
  lemma EquivalentSecrets(key: seq<Octet>, n: nat, msg: seq<Octet>)
    ensures |key| + n <= BLOCK ==> Mac(key + Zeros(n), msg) == Mac(key, msg)
    ensures |key| > BLOCK ==> Mac(Hash(key), msg) == Mac(key, msg)
  {
    if |key| + n <= BLOCK {
      assert BlockKey(key + Zeros(n)) == BlockKey(key);
    }
  }
}
