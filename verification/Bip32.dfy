/** Hierarchical deterministic keys (BIP 32): deriving children of private and of public keys.
  *
  * The curve group, HMAC-SHA512 and the key hash are parameters. Compressed public keys are real:
  * a public key keeps x and the parity of y only, and rebuilds y as `PointCompression` does.
  */
module Bip32 {
  import opened Digits
  import opened Field
  import opened PointCompression
  import opened Wrappers

  datatype Point = Point(x: nat, y: nat)

  /** `point(k)` is the k-fold generator, None the point at infinity. `mac` gives the left half of
      the HMAC as a number and the right half as the new chain code. */
  datatype Curve = Curve(
    n: nat,
    p: nat,
    point: nat -> Option<Point>,
    add: (Option<Point>, Option<Point>) -> Option<Point>,
    mac: (Bytes, Bytes) -> (nat, Bytes),
    fingerprint: Bytes -> Bytes)

  /** The curve is a cyclic group of order n over a prime field, its points have y other than 0. */
  ghost predicate IsGroup(g: Curve) {
    && g.n > 0 && g.p >= 3 && IsField(g.p)
    && g.point(0) == None
    && (forall k: nat :: 0 < k < g.n ==> g.point(k).Some? && IsPoint(g, g.point(k).value))
    && (forall a: nat, b: nat :: g.add(g.point(a), g.point(b)) == g.point((a + b) % g.n))
  }

  ghost predicate IsPoint(g: Curve, q: Point)
    requires g.p > 0
  {
    0 < q.y < g.p && OnCurve(q.x, q.y, g.p)
  }

  /** An extended key. A public key has no secret. `settings` stands for network, witness type,
      encoding and multisig flag, which children inherit. */
  datatype HDKey = HDKey(
    secret: Option<nat>,
    x: nat,
    odd: bool,
    chain: Bytes,
    depth: nat,
    parentFingerprint: Bytes,
    childIndex: nat,
    settings: string)

  const HARDENED: nat := 0x8000_0000

  /** A private key's public part is the point of its secret. */
  ghost predicate IsKey(g: Curve, k: HDKey) {
    k.secret.Some? ==>
      && 0 < k.secret.value < g.n
      && g.point(k.secret.value).Some?
      && k.x == g.point(k.secret.value).value.x
      && k.odd == (g.point(k.secret.value).value.y % 2 == 1)
  }

  function PublicByte(k: HDKey): Bytes {
    [if k.odd then 3 else 2] + FixBE(k.x, 32, 256)
  }

  function PublicPoint(g: Curve, k: HDKey): Option<Point>
    requires g.p >= 3
  {
    if k.secret.Some? then g.point(k.secret.value)
    else
      var y := Decompress(k.x, k.odd, g.p);
      Some(Point(k.x, if y < 0 then 0 else y))
  }

  function Fingerprint(g: Curve, k: HDKey): Bytes {
    g.fingerprint(PublicByte(k))
  }

  /** `HDKey.public`. */
  function Public(k: HDKey): HDKey {
    k.(secret := None)
  }

  function Child(g: Curve, k: HDKey, secret: Option<nat>, q: Point, chain: Bytes, index: nat): HDKey {
    HDKey(secret, q.x, q.y % 2 == 1, chain, k.depth + 1, Fingerprint(g, k), index, k.settings)
  }

  function ChildPrivate(g: Curve, k: HDKey, index: nat, hardened: bool): Result<HDKey>
    requires g.n > 0
  {
    if k.secret == None then Err
    else
      var secret := k.secret.value;
      var index' := if hardened && index < HARDENED then index + HARDENED else index;
      if index' >= 0x1_0000_0000 then Err
      else
        var data :=
          (if hardened then [0] + FixBE(secret, 32, 256) else PublicByte(k)) + FixBE(index', 4, 256);
        var (key, chain) := g.mac(k.chain, data);
        if key >= g.n then Err
        else
          var newKey := (key + secret) % g.n;
          if newKey == 0 then Err
          else
            match g.point(newKey)
            case None => Err
            case Some(q) => Ok(Child(g, k, Some(newKey), q, chain, index'))
  }

  function ChildPublic(g: Curve, k: HDKey, index: nat): Result<HDKey>
    requires g.p >= 3
  {
    if index > HARDENED then Err
    else
      var data := PublicByte(k) + FixBE(index, 4, 256);
      var (key, chain) := g.mac(k.chain, data);
      if key >= g.n then Err
      else
        match g.add(g.point(key), PublicPoint(g, k))
        case None => Err
        case Some(q) => Ok(Child(g, k, None, q, chain, index))
  }

  // ---------------------------------------------------------------- one step

  lemma PublicPointOfPublic(g: Curve, k: HDKey)
    requires IsGroup(g) && IsKey(g, k)
    ensures PublicPoint(g, Public(k)) == PublicPoint(g, k)
  {
    hide Decompress, OnCurve;
    if k.secret.Some? {
      var q := g.point(k.secret.value).value;
      assert IsPoint(g, q);
      DecompressInvertsCompress(q.x, q.y, g.p);
    }
  }

  function MapPublic(r: Result<HDKey>): Result<HDKey> {
    match r
    case Ok(k) => Ok(Public(k))
    case Err => Err
  }

  /** One step down: making the child public is deriving from the public key. Public derivation
      refuses exactly the indices above 0x80000000. */
  lemma ChildCommutes(g: Curve, k: HDKey, index: nat)
    requires IsGroup(g) && IsKey(g, k) && k.secret.Some?
    ensures ChildPublic(g, Public(k), index) ==
            if index > HARDENED then Err else MapPublic(ChildPrivate(g, k, index, false))
    ensures ChildPrivate(g, k, index, false).Ok? ==> IsKey(g, ChildPrivate(g, k, index, false).value)
  {
    hide Decompress, OnCurve, IsField;
    PublicPointOfPublic(g, k);
    var (key, chain) := g.mac(k.chain, PublicByte(k) + FixBE(index, 4, 256));
    assert PublicByte(Public(k)) == PublicByte(k);
    assert g.add(g.point(key), g.point(k.secret.value)) == g.point((key + k.secret.value) % g.n);
  }

  lemma HardenedIsKey(g: Curve, k: HDKey, index: nat, hardened: bool)
    requires IsGroup(g)
    ensures ChildPrivate(g, k, index, hardened).Ok? ==>
              IsKey(g, ChildPrivate(g, k, index, hardened).value) && ChildPrivate(g, k, index, hardened).value.secret.Some?
  {
  }

  /** A private key derives the same public child as its public version. */
  lemma ChildPublicOfPrivate(g: Curve, k: HDKey, index: nat)
    requires IsGroup(g) && IsKey(g, k)
    ensures ChildPublic(g, k, index) == ChildPublic(g, Public(k), index)
  {
    PublicPointOfPublic(g, k);
    assert PublicByte(Public(k)) == PublicByte(k);
  }

  // ---------------------------------------------------------------- whole paths

  datatype Step = Step(index: nat, hardened: bool)

  /** `key_for_path`: private steps as long as the key is private, public steps otherwise, or from
      the first step on when the path starts with M. */
  function KeyForPath(g: Curve, k: HDKey, path: seq<Step>, firstPublic: bool): Result<HDKey>
    requires g.p >= 3 && g.n > 0
    decreases |path|
  {
    if path == [] then Ok(k)
    else
      var item := path[0];
      var child :=
        if firstPublic || k.secret == None then ChildPublic(g, k, item.index)
        else ChildPrivate(g, k, item.index, item.hardened);
      match child
      case Err => Err
      case Ok(c) => KeyForPath(g, c, path[1..], false)
  }

  method DerivePath(g: Curve, k: HDKey, path: seq<Step>, master: bool) returns (r: Result<HDKey>)
    requires g.p >= 3 && g.n > 0
    ensures r == KeyForPath(g, k, path, master)
  {
    var key := k;
    var firstPublic := master;
    for i := 0 to |path|
      invariant KeyForPath(g, k, path, master) == KeyForPath(g, key, path[i..], firstPublic)
    {
      assert path[i..][1..] == path[i + 1..];
      var item := path[i];
      var child;
      if firstPublic || key.secret == None {
        child := ChildPublic(g, key, item.index);
        firstPublic := false;
      } else {
        child := ChildPrivate(g, key, item.index, item.hardened);
      }
      match child {
        case Err => return Err;
        case Ok(c) => key := c;
      }
    }
    return Ok(key);
  }

  ghost predicate Unhardened(path: seq<Step>) {
    forall i :: 0 <= i < |path| ==> !path[i].hardened
  }

  ghost predicate InRange(path: seq<Step>) {
    forall i :: 0 <= i < |path| ==> path[i].index <= HARDENED
  }

  /** Derivation commutes with making keys public, in every field of the key and in failure too. */
  lemma {:induction false} DerivationCommutes(g: Curve, k: HDKey, path: seq<Step>)
    requires IsGroup(g) && IsKey(g, k) && k.secret.Some?
    requires Unhardened(path) && InRange(path)
    ensures KeyForPath(g, Public(k), path, false) == MapPublic(KeyForPath(g, k, path, false))
    decreases |path|
  {
    assert g.n > 0 && g.p >= 3;
    hide ChildPublic, ChildPrivate, IsGroup, IsKey;
    if path != [] {
      assert !path[0].hardened && path[0].index <= HARDENED;
      ChildCommutes(g, k, path[0].index);
      HardenedIsKey(g, k, path[0].index, false);
      var child := ChildPrivate(g, k, path[0].index, false);
      if child.Ok? {
        DerivationCommutes(g, child.value, path[1..]);
      }
    }
  }

  /** Where private derivation along unhardened steps succeeds, public derivation does exactly when
      no index is above 0x80000000. */
  lemma {:induction false} PublicSucceedsIff(g: Curve, k: HDKey, path: seq<Step>)
    requires IsGroup(g) && IsKey(g, k) && k.secret.Some?
    requires Unhardened(path) && KeyForPath(g, k, path, false).Ok?
    ensures KeyForPath(g, Public(k), path, false).Ok? <==> InRange(path)
    decreases |path|
  {
    assert g.n > 0 && g.p >= 3;
    hide ChildPublic, ChildPrivate, IsGroup, IsKey;
    if path != [] {
      assert !path[0].hardened;
      ChildCommutes(g, k, path[0].index);
      HardenedIsKey(g, k, path[0].index, false);
      var child := ChildPrivate(g, k, path[0].index, false).value;
      PublicSucceedsIff(g, child, path[1..]);
      assert InRange(path) <==> path[0].index <= HARDENED && InRange(path[1..]) by {
        assert forall i :: 1 <= i < |path| ==> path[i] == path[1..][i - 1];
      }
    }
  }

  /** A path from the public master key M is the path of the public version of the key, unless it has no steps:
      then a private key comes back as it is. */
  lemma MasterPublicPath(g: Curve, k: HDKey, path: seq<Step>)
    requires IsGroup(g) && IsKey(g, k)
    ensures KeyForPath(g, k, path, true) == KeyForPath(g, Public(k), path, false) <==> path != [] || k.secret == None
  {
    if path != [] {
      ChildPublicOfPrivate(g, k, path[0].index);
    }
  }

  function DropHardened(path: seq<Step>): (r: seq<Step>)
    ensures |r| == |path|
    ensures forall i :: 0 <= i < |path| ==> r[i] == Step(path[i].index, false)
  {
    seq(|path|, i requires 0 <= i < |path| => Step(path[i].index, false))
  }

  /** A public key has no hardened children, but the code does not refuse them: it derives the
      unhardened ones instead. */
  lemma {:induction false} PublicIgnoresHardening(g: Curve, k: HDKey, path: seq<Step>)
    requires g.p >= 3 && g.n > 0 && k.secret == None
    ensures KeyForPath(g, k, path, false) == KeyForPath(g, k, DropHardened(path), false)
    decreases |path|
  {
    if path != [] {
      var child := ChildPublic(g, k, path[0].index);
      assert DropHardened(path)[1..] == DropHardened(path[1..]);
      if child.Ok? {
        PublicIgnoresHardening(g, child.value, path[1..]);
      }
    }
  }
}
