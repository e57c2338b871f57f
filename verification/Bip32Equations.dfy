/** The equations of BIP 32, section "Child key derivation (CKD) functions", for every step and for whole paths.
  *
  * ser32(i) and ser256(p) are the bytes of a number from the high end, serP(P) is the parity of y and x.
  */
module Bip32Equations {
  import opened Digits
  import opened ByteLayout
  import opened Bip32
  import opened PointCompression
  import opened Wrappers

  /** The 33 bytes of a public key. */
  function SerP(x: nat, odd: bool): Bytes {
    [if odd then 3 else 2] + Big(x, 32)
  }

  /** The number of a step: hardened steps are counted from 2^31, which the code sets as a bit. */
  function Number(index: nat, hardened: bool): nat {
    if hardened && index < 2147483648 then index + 2147483648 else index
  }

  /** What the HMAC is taken of: for a hardened step the secret behind a zero byte, else the public key; then the
      number of the step. */
  function StepData(k: HDKey, index: nat, hardened: bool): Bytes
    requires k.secret.Some?
  {
    (if hardened then [0] + Big(k.secret.value, 32) else SerP(k.x, k.odd)) + Big(Number(index, hardened), 4)
  }

  /** The child of a private key, whose fields come from the two halves of the HMAC. */
  ghost predicate IsPrivateChild(g: Curve, k: HDKey, index: nat, hardened: bool, c: HDKey)
    requires g.n > 0 && k.secret.Some?
  {
    var (l, r) := g.mac(k.chain, StepData(k, index, hardened));
    var secret := (l + k.secret.value) % g.n;
    && Number(index, hardened) < 4294967296 && l < g.n && secret != 0
    && c.secret == Some(secret)
    && g.point(secret).Some? && c.x == g.point(secret).value.x && c.odd == (g.point(secret).value.y % 2 == 1)
    && c.chain == r && c.depth == k.depth + 1
    && c.parentFingerprint == g.fingerprint(SerP(k.x, k.odd))
    && c.childIndex == Number(index, hardened)
    && c.settings == k.settings
  }

  lemma PublicByteIs(k: HDKey)
    ensures PublicByte(k) == SerP(k.x, k.odd)
  {
    hide FixBE, Big;
    BigEndianIs(k.x, 32);
  }

  lemma StepDataIs(k: HDKey, index: nat, hardened: bool)
    requires k.secret.Some?
    ensures (if hardened then [0] + FixBE(k.secret.value, 32, 256) else PublicByte(k))
            + FixBE(if hardened && index < HARDENED then index + HARDENED else index, 4, 256)
            == StepData(k, index, hardened)
  {
    hide FixBE, Big, SerP, PublicByte;
    PublicByteIs(k);
    BigEndianIs(k.secret.value, 32);
    BigEndianIs(Number(index, hardened), 4);
  }

  /** One step from a private key, hardened or not: it fails exactly when its number takes more than four bytes, the left
      half l is not below n or l + secret is a multiple of n, and otherwise gives the child of the equations. */
  lemma PrivateStep(g: Curve, k: HDKey, index: nat, hardened: bool)
    requires IsGroup(g) && k.secret.Some?
    ensures var (l, r) := g.mac(k.chain, StepData(k, index, hardened));
            ChildPrivate(g, k, index, hardened) == Err
            <==> Number(index, hardened) >= 4294967296 || l >= g.n || (l + k.secret.value) % g.n == 0
    ensures forall c :: ChildPrivate(g, k, index, hardened) == Ok(c) <==> IsPrivateChild(g, k, index, hardened, c)
  {
    hide PublicByte, SerP, StepData, IsPoint;
    StepDataIs(k, index, hardened);
    PublicByteIs(k);
    var (l, r) := g.mac(k.chain, StepData(k, index, hardened));
    var secret := (l + k.secret.value) % g.n;
    assert secret != 0 ==> g.point(secret).Some?;
    forall c
      ensures ChildPrivate(g, k, index, hardened) == Ok(c) <==> IsPrivateChild(g, k, index, hardened, c)
    {
    }
  }

  /** The child of a public key, whose point is the sum of the parent's and that of the left half. */
  ghost predicate IsPublicChild(g: Curve, k: HDKey, q: Point, index: nat, c: HDKey) {
    var (l, r) := g.mac(k.chain, SerP(k.x, k.odd) + Big(index, 4));
    var sum := g.add(g.point(l), Some(q));
    && l < g.n && sum.Some?
    && c.secret == None && c.x == sum.value.x && c.odd == (sum.value.y % 2 == 1)
    && c.chain == r && c.depth == k.depth + 1
    && c.parentFingerprint == g.fingerprint(SerP(k.x, k.odd))
    && c.childIndex == index && c.settings == k.settings
  }

  /** One step from a public key, with `q` the point that has its x and parity. */
  lemma PublicStep(g: Curve, k: HDKey, q: Point, index: nat)
    requires IsGroup(g) && k.secret == None && IsPoint(g, q) && q.x == k.x && k.odd == (q.y % 2 == 1)
    ensures var (l, r) := g.mac(k.chain, SerP(k.x, k.odd) + Big(index, 4));
            ChildPublic(g, k, index) == Err
            <==> index > 2147483648 || l >= g.n || g.add(g.point(l), Some(q)) == None
    ensures forall c :: ChildPublic(g, k, index) == Ok(c) <==> index <= 2147483648 && IsPublicChild(g, k, q, index, c)
  {
    assert g.p >= 3;
    hide *;
    BigEndianIs(index, 4);
    PublicByteIs(k);
    PointIs(g, k, q);
    PublicStepFrom(g, k, q, index);
  }

  lemma PublicStepFrom(g: Curve, k: HDKey, q: Point, index: nat)
    requires g.p >= 3 && PublicPoint(g, k) == Some(q)
    requires PublicByte(k) == SerP(k.x, k.odd) && FixBE(index, 4, 256) == Big(index, 4)
    ensures var (l, r) := g.mac(k.chain, SerP(k.x, k.odd) + Big(index, 4));
            ChildPublic(g, k, index) == Err
            <==> index > 2147483648 || l >= g.n || g.add(g.point(l), Some(q)) == None
    ensures forall c :: ChildPublic(g, k, index) == Ok(c) <==> index <= 2147483648 && IsPublicChild(g, k, q, index, c)
  {
    hide PublicByte, SerP, Big, FixBE, PublicPoint;
    var (l, r) := g.mac(k.chain, SerP(k.x, k.odd) + Big(index, 4));
    var sum := g.add(g.point(l), Some(q));
    forall c
      ensures ChildPublic(g, k, index) == Ok(c) <==> index <= 2147483648 && IsPublicChild(g, k, q, index, c)
    {
      if index <= 2147483648 && l < g.n && sum.Some? {
        assert ChildPublic(g, k, index) == Ok(Child(g, k, None, sum.value, r, index));
        assert IsPublicChild(g, k, q, index, c) ==> c == Child(g, k, None, sum.value, r, index);
      }
    }
  }

  lemma PointIs(g: Curve, k: HDKey, q: Point)
    requires IsGroup(g) && k.secret == None && IsPoint(g, q) && q.x == k.x && k.odd == (q.y % 2 == 1)
    ensures PublicPoint(g, k) == Some(q)
  {
    DecompressInvertsCompress(q.x, q.y, g.p);
  }

  // ---------------------------------------------------------------- whole paths

  /** `c` is reached from `k` by steps that all satisfy the equations. */
  ghost predicate IsReached(g: Curve, k: HDKey, path: seq<Step>, c: HDKey)
    requires g.n > 0 && k.secret.Some?
    decreases |path|
  {
    if path == [] then c == k
    else exists d :: IsPrivateChild(g, k, path[0].index, path[0].hardened, d) && IsReached(g, d, path[1..], c)
  }

  /** A private key derives along a path, with hardened steps or not, exactly the key that the equations lead to. */
  lemma {:induction false} PathIs(g: Curve, k: HDKey, path: seq<Step>, c: HDKey)
    requires IsGroup(g) && k.secret.Some?
    ensures KeyForPath(g, k, path, false) == Ok(c) <==> IsReached(g, k, path, c)
    decreases |path|
  {
    assert g.n > 0 && g.p >= 3;
    if path != [] {
      hide IsGroup, IsPrivateChild, ChildPrivate;
      PrivateStep(g, k, path[0].index, path[0].hardened);
      var child := ChildPrivate(g, k, path[0].index, path[0].hardened);
      if child.Ok? {
        ChildHasSecret(g, k, path[0].index, path[0].hardened, child.value);
        PathIs(g, child.value, path[1..], c);
      }
    }
  }

  lemma ChildHasSecret(g: Curve, k: HDKey, index: nat, hardened: bool, c: HDKey)
    requires g.n > 0 && k.secret.Some? && IsPrivateChild(g, k, index, hardened, c)
    ensures c.secret.Some?
  {
  }

  /** The path m/44'/0'/0'/0/i: three hardened steps and two others, each by its equation. */
  lemma AccountPath(g: Curve, k: HDKey, i: nat, c: HDKey) returns (purpose: HDKey, coin: HDKey, account: HDKey, chain: HDKey)
    requires IsGroup(g) && k.secret.Some?
    requires KeyForPath(g, k, [Step(44, true), Step(0, true), Step(0, true), Step(0, false), Step(i, false)], false) == Ok(c)
    ensures g.n > 0 && purpose.secret.Some? && coin.secret.Some? && account.secret.Some? && chain.secret.Some?
    ensures IsPrivateChild(g, k, 44, true, purpose)
    ensures IsPrivateChild(g, purpose, 0, true, coin)
    ensures IsPrivateChild(g, coin, 0, true, account)
    ensures IsPrivateChild(g, account, 0, false, chain)
    ensures IsPrivateChild(g, chain, i, false, c)
  {
    var path := [Step(44, true), Step(0, true), Step(0, true), Step(0, false), Step(i, false)];
    PathIs(g, k, path, c);
    hide IsGroup, IsPrivateChild, KeyForPath;
    var d: HDKey;
    purpose := FirstStep(g, k, path, c);
    coin := FirstStep(g, purpose, path[1..], c);
    account := FirstStep(g, coin, path[1..][1..], c);
    chain := FirstStep(g, account, path[1..][1..][1..], c);
    d := FirstStep(g, chain, path[1..][1..][1..][1..], c);
  }

  lemma FirstStep(g: Curve, k: HDKey, path: seq<Step>, c: HDKey) returns (d: HDKey)
    requires g.n > 0 && k.secret.Some? && path != [] && IsReached(g, k, path, c)
    ensures IsPrivateChild(g, k, path[0].index, path[0].hardened, d) && d.secret.Some? && IsReached(g, d, path[1..], c)
    ensures |path| == 1 ==> d == c
  {
    d :| IsPrivateChild(g, k, path[0].index, path[0].hardened, d) && IsReached(g, d, path[1..], c);
  }
}
