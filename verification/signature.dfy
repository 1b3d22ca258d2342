/**
 * Last.fm API request signing (`compute_signature`, src/lastfmapi.rs):
 * the parameter names in ascending order, each immediately followed by
 * its value, then the shared secret; the MD5 digest of the UTF-8 bytes of
 * that string, in lowercase hexadecimal, is the `api_sig` parameter.
 */
module Signature {
  import opened Wrappers
  import opened KeySort
  import opened Bytes

  type Params = map<string, string>

  /** The MD5 function of RFC 1321, supplied by the caller and not modelled. */
  type Md5 = seq<byte> -> Digest

  const ApiSigKey: string := "api_sig"

  /** Each key immediately followed by its value, key after key. */
  function Pairs(keys: seq<string>, params: Params): (r: string)
    requires forall i :: 0 <= i < |keys| ==> keys[i] in params
    ensures |keys| == 0 ==> r == ""
    ensures |keys| == 1 ==> r == keys[0] + params[keys[0]]
  {
    if |keys| == 0 then "" else keys[0] + params[keys[0]] + Pairs(keys[1..], params)
  }

  lemma {:induction false} PairsAppend(a: seq<string>, b: seq<string>, params: Params)
    requires forall i :: 0 <= i < |a| ==> a[i] in params
    requires forall i :: 0 <= i < |b| ==> b[i] in params
    ensures Pairs(a + b, params) == Pairs(a, params) + Pairs(b, params)
  {
    if |a| == 0 {
      assert a + b == b;
    } else {
      assert (a + b)[1..] == a[1..] + b;
      PairsAppend(a[1..], b, params);
    }
  }

  /** Three keys, each followed by its value. */
  lemma Pairs3(k1: string, k2: string, k3: string, params: Params)
    requires k1 in params && k2 in params && k3 in params
    ensures Pairs([k1, k2, k3], params) == k1 + params[k1] + k2 + params[k2] + k3 + params[k3]
  {
    var a, b, c := k1 + params[k1], k2 + params[k2], k3 + params[k3];
    assert [k1, k2, k3][1..] == [k2, k3];
    assert [k2, k3][1..] == [k3];
    assert [k3][1..] == [];
    assert Pairs([k3], params) == c;
    assert Pairs([k1, k2, k3], params) == a + (b + c);
    assert a + (b + c) == a + b + c;
    assert a + b == k1 + params[k1] + k2 + params[k2];
    assert a + b + c == k1 + params[k1] + k2 + params[k2] + (k3 + params[k3]);
  }

  lemma Pairs6(k1: string, k2: string, k3: string, k4: string, k5: string, k6: string, params: Params)
    requires k1 in params && k2 in params && k3 in params
    requires k4 in params && k5 in params && k6 in params
    ensures Pairs([k1, k2, k3, k4, k5, k6], params)
      == k1 + params[k1] + k2 + params[k2] + k3 + params[k3]
         + k4 + params[k4] + k5 + params[k5] + k6 + params[k6]
  {
    assert [k1, k2, k3, k4, k5, k6] == [k1, k2, k3] + [k4, k5, k6];
    PairsAppend([k1, k2, k3], [k4, k5, k6], params);
    Pairs3(k1, k2, k3, params);
    Pairs3(k4, k5, k6, params);
    var x := k1 + params[k1] + k2 + params[k2] + k3 + params[k3];
    var a, b, c := k4 + params[k4], k5 + params[k5], k6 + params[k6];
    assert Pairs([k4, k5, k6], params) == a + b + c;
    assert x + (a + b + c) == x + a + b + c;
    assert x + a == x + k4 + params[k4];
    assert x + a + b == x + k4 + params[k4] + k5 + params[k5];
  }

  /**
   * The string that is hashed. `order` is whatever order the hash map
   * yields its keys in; the result does not depend on it.
   */
  function PreImage(params: Params, order: seq<string>, secret: string): (r: string)
    requires IsEnumeration(order, params.Keys)
    ensures r == Pairs(Ascending(params.Keys), params) + secret
    ensures |r| >= |secret| && r[|r| - |secret|..] == secret
  {
    SortEnumeration(order, params.Keys);
    EnumerationMembers(Sort(order), params.Keys);
    SortIsAscending(order, params.Keys);
    Pairs(Sort(order), params) + secret
  }

  /** `compute_signature`: 32 lowercase hexadecimal digits of the MD5 of the pre-image. */
  function ComputeSignature(params: Params, order: seq<string>, secret: string, md5: Md5): (sig: string)
    requires IsEnumeration(order, params.Keys)
    ensures |sig| == 32
    ensures forall i :: 0 <= i < |sig| ==> IsLowerHex(sig[i])
    ensures Unhex(sig) == Some(md5(Utf8(Pairs(Ascending(params.Keys), params) + secret)))
    ensures Unhex(sig) == Some(md5(Utf8(PreImage(params, order, secret))))
  {
    var digest := md5(Utf8(PreImage(params, order, secret)));
    HexRoundTrip(digest);
    Hex(digest)
  }

  /**
   * The parameters as sent: the signed set plus `api_sig`, whose value is
   * computed before it is inserted.
   */
  function SignedForm(params: Params, order: seq<string>, secret: string, md5: Md5): (form: Params)
    requires IsEnumeration(order, params.Keys)
    ensures form.Keys == params.Keys + {ApiSigKey}
    ensures forall k :: k in params && k != ApiSigKey ==> form[k] == params[k]
    ensures form[ApiSigKey] == ComputeSignature(params, order, secret, md5)
    ensures ApiSigKey !in params ==> form - {ApiSigKey} == params
  {
    var sig := ComputeSignature(params, order, secret, md5);
    RemoveInserted(params, ApiSigKey, sig);
    params[ApiSigKey := sig]
  }

  /** The form sent does not depend on the order the hash map yields its keys in. */
  lemma SignedFormOrderIndependent(params: Params, order1: seq<string>, order2: seq<string>, secret: string, md5: Md5)
    requires IsEnumeration(order1, params.Keys) && IsEnumeration(order2, params.Keys)
    ensures SignedForm(params, order1, secret, md5) == SignedForm(params, order2, secret, md5)
  {
    SignatureOrderIndependent(params, order1, order2, secret, md5);
  }

  /** Inserting a fresh key and removing it again gives back the map. */
  lemma RemoveInserted(m: Params, k: string, v: string)
    ensures k !in m ==> m[k := v] - {k} == m
  {
    if k !in m {
      assert (m[k := v] - {k}).Keys == m.Keys;
    }
  }

  /**
   * What the service checks: `api_sig` is present and is the signature of
   * every other parameter. Stated on the key set alone, with no hash-map order.
   */
  ghost predicate Verifies(form: Params, secret: string, md5: Md5)
  {
    var rest := form - {ApiSigKey};
    && ApiSigKey in form
    && Unhex(form[ApiSigKey]) == Some(md5(Utf8(Pairs(Ascending(rest.Keys), rest) + secret)))
  }

  /**
   * A signed form passes verification, and removing `api_sig` gives back
   * exactly the parameters that were signed: the signature never covers itself.
   */
  lemma SignedFormVerifies(params: Params, order: seq<string>, secret: string, md5: Md5)
    requires IsEnumeration(order, params.Keys)
    requires ApiSigKey !in params
    ensures SignedForm(params, order, secret, md5) - {ApiSigKey} == params
    ensures Verifies(SignedForm(params, order, secret, md5), secret, md5)
  {
  }

  /** Signatures agree for any two hash-map orders of the same parameters. */
  lemma {:induction false} SignatureOrderIndependent(params: Params, order1: seq<string>, order2: seq<string>, secret: string, md5: Md5)
    requires IsEnumeration(order1, params.Keys) && IsEnumeration(order2, params.Keys)
    ensures ComputeSignature(params, order1, secret, md5) == ComputeSignature(params, order2, secret, md5)
  {
    assert PreImage(params, order1, secret) == PreImage(params, order2, secret);
  }
}
