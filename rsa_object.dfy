/**
 * The RSA key object: its big-integer fields, flags, reference count and method table, the
 * constructors that copy and check their inputs, the set0 mutators and the flag functions.
 */
module RsaObject {
  import opened Base
  import opened BigNum
  import opened RsaKey
  import opened Pkcs1

  /** The padding a raw operation is asked to apply. */
  datatype Padding = Pkcs1Padding | NoPadding

  /** What a method's sign_raw hook returns: a length or a negative error, and the bytes written. */
  datatype RawSignResult = RawSignResult(ret: int, written: seq<byte>)

  /** What a method's sign hook returns: its status and the signature bytes written. */
  datatype SignResult = SignResult(ret: int, sig: seq<byte>)

  /**
   * The parts of an RSA_METHOD this model distinguishes: its flags, the outcome of its init
   * hook (None when it has none) and the sign_raw, sign and size overrides, each applied to a
   * snapshot of the key.
   */
  datatype RsaMethod = RsaMethod(
    flags: bv32,
    init: Option<bool>,
    signRaw: Option<(int, seq<byte>, KeyValue, Padding) -> RawSignResult>,
    sign: Option<(HashNid, seq<byte>, KeyValue) -> SignResult>,
    size: Option<KeyValue -> nat>)

  /** The built-in method: no hooks. Its flags are taken to be 0. */
  function DefaultMethod(): RsaMethod {
    RsaMethod(0, None, None, None, None)
  }

  /** The method RSA_new_method installs: the engine's, or the default one. */
  function ChosenMethod(engine: Option<RsaMethod>): RsaMethod {
    engine.GetOr(DefaultMethod())
  }

  /** k with component c set to v. */
  function SetComponent(k: KeyValue, c: Component, v: Option<int>): (r: KeyValue)
    ensures r.flags == k.flags
  {
    match c
    case N => k.(n := v)
    case E => k.(e := v)
    case D => k.(d := v)
    case P => k.(p := v)
    case Q => k.(q := v)
    case Dmp1 => k.(dmp1 := v)
    case Dmq1 => k.(dmq1 := v)
    case Iqmp => k.(iqmp := v)
  }

  /** k with component c replaced when an argument is passed; a NULL argument keeps the field. */
  function Replace(k: KeyValue, c: Component, arg: Option<int>): KeyValue {
    if arg.Some? then SetComponent(k, c, arg) else k
  }

  /** The key a constructor builds from its inputs, before the check. */
  function Built(flags: bv32, n: Option<int>, e: Option<int>, d: Option<int>, p: Option<int>,
                 q: Option<int>, dmp1: Option<int>, dmq1: Option<int>, iqmp: Option<int>): KeyValue {
    KeyValue(n, e, d, p, q, dmp1, dmq1, iqmp, flags)
  }

  class Rsa {
    var n: Option<int>
    var e: Option<int>
    var d: Option<int>
    var p: Option<int>
    var q: Option<int>
    var dmp1: Option<int>
    var dmq1: Option<int>
    var iqmp: Option<int>
    var flags: bv32
    var references: nat
    var meth: RsaMethod
    /** Whether cached values derived from the key (Montgomery contexts, blinding) may exist. */
    var hasDerivedState: bool

    /** The key's components and flags. */
    function Value(): KeyValue
      reads this
    {
      KeyValue(n, e, d, p, q, dmp1, dmq1, iqmp, flags)
    }

    /** The object is still owned by someone. */
    predicate Live()
      reads this
    {
      references >= 1
    }

    /** The zeroed object RSA_new_method fills in: one reference, the method's flags. */
    constructor (m: RsaMethod)
      ensures Value() == EmptyKey(m.flags) && meth == m
      ensures references == 1 && !hasDerivedState
    {
      n, e, d, p, q, dmp1, dmq1, iqmp := None, None, None, None, None, None, None, None;
      flags := m.flags;
      references := 1;
      meth := m;
      hasDerivedState := false;
    }

    /**
     * RSA_new_method: installs the engine's method or the default one, then runs its init
     * hook; a failing hook discards the object.
     */
    static method NewMethod(engine: Option<RsaMethod>) returns (r: Rsa?)
      ensures r != null <==> ChosenMethod(engine).init != Some(false)
      ensures r != null ==> fresh(r) && r.Value() == EmptyKey(ChosenMethod(engine).flags)
      ensures r != null ==> r.meth == ChosenMethod(engine) && r.references == 1
      ensures r != null ==> !r.hasDerivedState
    {
      var m := ChosenMethod(engine);
      if m.init == Some(false) {
        return null;
      }
      r := new Rsa(m);
    }

    /** RSA_new: RSA_new_method without an engine; the default method has no init hook. */
    static method New() returns (r: Rsa)
      ensures fresh(r) && r.Value() == EmptyKey(0) && r.meth == DefaultMethod()
      ensures r.references == 1 && !r.hasDerivedState
    {
      r := new Rsa(DefaultMethod());
    }

    /** bn_dup_into: copies src into field c; a NULL source fails and changes nothing. */
    method DupInto(c: Component, src: Option<int>) returns (ok: bool)
      modifies this
      ensures ok <==> src.Some?
      ensures Value() == if ok then SetComponent(old(Value()), c, src) else old(Value())
      ensures references == old(references) && meth == old(meth)
      ensures hasDerivedState == old(hasDerivedState)
    {
      if src.None? {
        return false;
      }
      ok := true;
      match c
      case N => n := src;
      case E => e := src;
      case D => d := src;
      case P => p := src;
      case Q => q := src;
      case Dmp1 => dmp1 := src;
      case Dmq1 => dmq1 := src;
      case Iqmp => iqmp := src;
    }

    /**
     * The bn_dup_into chain of the full private-key constructors, stopping at the first NULL:
     * a component is copied exactly when it and every input before it are present, and the
     * copies made before a failure stay in place (the caller then frees the object).
     */
    method DupAll(n': Option<int>, e': Option<int>, d': Option<int>, p': Option<int>,
                  q': Option<int>, dmp1': Option<int>, dmq1': Option<int>, iqmp': Option<int>)
      returns (ok: bool)
      modifies this
      ensures ok <==>
        && n'.Some? && e'.Some? && d'.Some? && p'.Some? && q'.Some?
        && dmp1'.Some? && dmq1'.Some? && iqmp'.Some?
      ensures ok ==> Value() == Built(old(flags), n', e', d', p', q', dmp1', dmq1', iqmp')
      ensures n == if n'.Some? then n' else old(n)
      ensures e == if n'.Some? && e'.Some? then e' else old(e)
      ensures d == if n'.Some? && e'.Some? && d'.Some? then d' else old(d)
      ensures p == if n'.Some? && e'.Some? && d'.Some? && p'.Some? then p' else old(p)
      ensures q == if n'.Some? && e'.Some? && d'.Some? && p'.Some? && q'.Some? then q' else old(q)
      ensures dmp1 == if n'.Some? && e'.Some? && d'.Some? && p'.Some? && q'.Some? && dmp1'.Some?
        then dmp1' else old(dmp1)
      ensures dmq1 == if n'.Some? && e'.Some? && d'.Some? && p'.Some? && q'.Some? && dmp1'.Some?
        && dmq1'.Some? then dmq1' else old(dmq1)
      ensures iqmp == if ok then iqmp' else old(iqmp)
      ensures flags == old(flags) && references == old(references) && meth == old(meth)
      ensures hasDerivedState == old(hasDerivedState)
    {
      ok := DupInto(N, n');
      if ok { ok := DupInto(E, e'); }
      if ok { ok := DupInto(D, d'); }
      if ok { ok := DupInto(P, p'); }
      if ok { ok := DupInto(Q, q'); }
      if ok { ok := DupInto(Dmp1, dmp1'); }
      if ok { ok := DupInto(Dmq1, dmq1'); }
      if ok { ok := DupInto(Iqmp, iqmp'); }
    }

    /** RSA_up_ref: one more owner. */
    method UpRef() returns (ret: int)
      requires Live()
      modifies this`references
      ensures references == old(references) + 1 && ret == 1
    {
      references := references + 1;
      return 1;
    }

    /**
     * RSA_free: drops one reference; the last one releases every component and the derived
     * state. A NULL key is ignored.
     */
    static method Free(rsa: Rsa?)
      requires rsa != null ==> rsa.Live()
      modifies rsa
      ensures rsa != null ==> rsa.references == old(rsa.references) - 1
      ensures rsa != null ==> rsa.meth == old(rsa.meth) && rsa.flags == old(rsa.flags)
      ensures rsa != null && rsa.Live() ==>
        rsa.Value() == old(rsa.Value()) && rsa.hasDerivedState == old(rsa.hasDerivedState)
      ensures rsa != null && !rsa.Live() ==>
        rsa.Value() == EmptyKey(old(rsa.flags)) && !rsa.hasDerivedState
    {
      if rsa == null {
        return;
      }
      rsa.references := rsa.references - 1;
      if rsa.references != 0 {
        return;
      }
      rsa.n, rsa.e, rsa.d, rsa.p, rsa.q := None, None, None, None, None;
      rsa.dmp1, rsa.dmq1, rsa.iqmp := None, None, None;
      rsa.hasDerivedState := false;
    }

    /** The shared tail of every constructor: check the key, or free it and return NULL. */
    static method CheckOrFree(rsa: Rsa) returns (r: Rsa?)
      requires rsa.Live()
      modifies rsa
      ensures r != null <==> CheckKey(old(rsa.Value())).Pass?
      ensures r != null ==> r == rsa && rsa.Value() == old(rsa.Value())
      ensures r != null ==> rsa.references == old(rsa.references)
      ensures rsa.meth == old(rsa.meth)
    {
      if CheckKey(rsa.Value()).Fail? {
        Free(rsa);
        return null;
      }
      return rsa;
    }

    /** RSA_new_public_key: a key from n and e; NULL unless both are given and the key checks. */
    static method NewPublicKey(n: Option<int>, e: Option<int>) returns (r: Rsa?)
      ensures r != null <==>
        n.Some? && e.Some? && CheckKey(Built(0, n, e, None, None, None, None, None, None)).Pass?
      ensures r != null ==> fresh(r) && r.Live() && r.meth == DefaultMethod()
      ensures r != null ==> r.Value() == Built(0, n, e, None, None, None, None, None, None)
    {
      var rsa := New();
      var ok := rsa.DupInto(N, n);
      if ok {
        ok := rsa.DupInto(E, e);
      }
      if !ok {
        Free(rsa);
        return null;
      }
      r := CheckOrFree(rsa);
    }

    /** RSA_new_private_key: a key with every component; NULL unless all are given and it checks. */
    static method NewPrivateKey(n: Option<int>, e: Option<int>, d: Option<int>, p: Option<int>,
                                q: Option<int>, dmp1: Option<int>, dmq1: Option<int>,
                                iqmp: Option<int>) returns (r: Rsa?)
      ensures r != null <==>
        && n.Some? && e.Some? && d.Some? && p.Some? && q.Some?
        && dmp1.Some? && dmq1.Some? && iqmp.Some?
        && CheckKey(Built(0, n, e, d, p, q, dmp1, dmq1, iqmp)).Pass?
      ensures r != null ==> fresh(r) && r.Live() && r.meth == DefaultMethod()
      ensures r != null ==> r.Value() == Built(0, n, e, d, p, q, dmp1, dmq1, iqmp)
    {
      var rsa := New();
      var ok := rsa.DupAll(n, e, d, p, q, dmp1, dmq1, iqmp);
      if !ok {
        Free(rsa);
        return null;
      }
      r := CheckOrFree(rsa);
    }

    /** RSA_new_private_key_no_crt: n, e and d only. */
    static method NewPrivateKeyNoCrt(n: Option<int>, e: Option<int>, d: Option<int>) returns (r: Rsa?)
      ensures r != null <==>
        n.Some? && e.Some? && d.Some? && CheckKey(Built(0, n, e, d, None, None, None, None, None)).Pass?
      ensures r != null ==> fresh(r) && r.Live() && r.meth == DefaultMethod()
      ensures r != null ==> r.Value() == Built(0, n, e, d, None, None, None, None, None)
    {
      var rsa := New();
      var ok := rsa.DupInto(N, n);
      if ok { ok := rsa.DupInto(E, e); }
      if ok { ok := rsa.DupInto(D, d); }
      if !ok {
        Free(rsa);
        return null;
      }
      r := CheckOrFree(rsa);
    }

    /** RSA_new_private_key_no_e: n and d, with the no-public-exponent flag set before the check. */
    static method NewPrivateKeyNoE(n: Option<int>, d: Option<int>) returns (r: Rsa?)
      ensures r != null <==>
        && n.Some? && d.Some?
        && CheckKey(Built(FlagNoPublicExponent, n, None, d, None, None, None, None, None)).Pass?
      ensures r != null ==> fresh(r) && r.Live() && r.meth == DefaultMethod()
      ensures r != null ==> r.Value() == Built(FlagNoPublicExponent, n, None, d, None, None, None, None, None)
    {
      var rsa := New();
      rsa.flags := rsa.flags | FlagNoPublicExponent;
      var ok := rsa.DupInto(N, n);
      if ok { ok := rsa.DupInto(D, d); }
      if !ok {
        Free(rsa);
        return null;
      }
      r := CheckOrFree(rsa);
    }

    /** RSA_new_public_key_large_e: n and e, with the large-exponent flag set before the check. */
    static method NewPublicKeyLargeE(n: Option<int>, e: Option<int>) returns (r: Rsa?)
      ensures r != null <==>
        && n.Some? && e.Some?
        && CheckKey(Built(FlagLargePublicExponent, n, e, None, None, None, None, None, None)).Pass?
      ensures r != null ==> fresh(r) && r.Live() && r.meth == DefaultMethod()
      ensures r != null ==> r.Value() == Built(FlagLargePublicExponent, n, e, None, None, None, None, None, None)
    {
      var rsa := New();
      rsa.flags := rsa.flags | FlagLargePublicExponent;
      var ok := rsa.DupInto(N, n);
      if ok { ok := rsa.DupInto(E, e); }
      if !ok {
        Free(rsa);
        return null;
      }
      r := CheckOrFree(rsa);
    }

    /** RSA_new_private_key_large_e: every component, with the large-exponent flag set first. */
    static method NewPrivateKeyLargeE(n: Option<int>, e: Option<int>, d: Option<int>, p: Option<int>,
                                      q: Option<int>, dmp1: Option<int>, dmq1: Option<int>,
                                      iqmp: Option<int>) returns (r: Rsa?)
      ensures r != null <==>
        && n.Some? && e.Some? && d.Some? && p.Some? && q.Some?
        && dmp1.Some? && dmq1.Some? && iqmp.Some?
        && CheckKey(Built(FlagLargePublicExponent, n, e, d, p, q, dmp1, dmq1, iqmp)).Pass?
      ensures r != null ==> fresh(r) && r.Live() && r.meth == DefaultMethod()
      ensures r != null ==> r.Value() == Built(FlagLargePublicExponent, n, e, d, p, q, dmp1, dmq1, iqmp)
    {
      var rsa := New();
      rsa.flags := rsa.flags | FlagLargePublicExponent;
      var ok := rsa.DupAll(n, e, d, p, q, dmp1, dmq1, iqmp);
      if !ok {
        Free(rsa);
        return null;
      }
      r := CheckOrFree(rsa);
    }

    /**
     * RSA_new_method_no_e: a key holding only n under the engine's method, flagged as having no
     * public exponent; it is not checked.
     */
    static method NewMethodNoE(engine: Option<RsaMethod>, n: Option<int>) returns (r: Rsa?)
      ensures r != null <==> ChosenMethod(engine).init != Some(false) && n.Some?
      ensures r != null ==> fresh(r) && r.Live() && r.meth == ChosenMethod(engine)
      ensures r != null ==>
        r.Value() == Built(ChosenMethod(engine).flags | FlagNoPublicExponent, n, None, None, None, None, None, None, None)
    {
      var rsa := NewMethod(engine);
      if rsa == null {
        return null;
      }
      var ok := rsa.DupInto(N, n);
      if !ok {
        Free(rsa);
        return null;
      }
      rsa.flags := rsa.flags | FlagNoPublicExponent;
      return rsa;
    }

    /**
     * RSA_set0_key: refuses, changing nothing, when n or both e and d would stay NULL;
     * otherwise takes each non-NULL argument and drops the derived state.
     */
    method Set0Key(n': Option<int>, e': Option<int>, d': Option<int>) returns (ok: bool)
      modifies this
      ensures ok <==>
        (old(n).Some? || n'.Some?) && (old(e).Some? || e'.Some? || old(d).Some? || d'.Some?)
      ensures ok ==> Value() == Replace(Replace(Replace(old(Value()), N, n'), E, e'), D, d')
      ensures ok ==> n.Some? && (e.Some? || d.Some?) && !hasDerivedState
      ensures !ok ==> Value() == old(Value()) && hasDerivedState == old(hasDerivedState)
      ensures references == old(references) && meth == old(meth)
    {
      if (n.None? && n'.None?) || (e.None? && e'.None? && d.None? && d'.None?) {
        return false;
      }
      if n'.Some? { n := n'; }
      if e'.Some? { e := e'; }
      if d'.Some? { d := d'; }
      hasDerivedState := false;
      return true;
    }

    /**
     * RSA_set0_factors: refuses, changing nothing, when p or q would stay NULL; otherwise takes
     * each non-NULL argument and drops the derived state.
     */
    method Set0Factors(p': Option<int>, q': Option<int>) returns (ok: bool)
      modifies this
      ensures ok <==> (old(p).Some? || p'.Some?) && (old(q).Some? || q'.Some?)
      ensures ok ==> Value() == Replace(Replace(old(Value()), P, p'), Q, q')
      ensures ok ==> p.Some? && q.Some? && !hasDerivedState
      ensures !ok ==> Value() == old(Value()) && hasDerivedState == old(hasDerivedState)
      ensures references == old(references) && meth == old(meth)
    {
      if (p.None? && p'.None?) || (q.None? && q'.None?) {
        return false;
      }
      if p'.Some? { p := p'; }
      if q'.Some? { q := q'; }
      hasDerivedState := false;
      return true;
    }

    /**
     * RSA_set0_crt_params: refuses, changing nothing, when any of dmp1, dmq1 and iqmp would stay
     * NULL; otherwise takes each non-NULL argument and drops the derived state.
     */
    method Set0CrtParams(dmp1': Option<int>, dmq1': Option<int>, iqmp': Option<int>) returns (ok: bool)
      modifies this
      ensures ok <==>
        (old(dmp1).Some? || dmp1'.Some?) && (old(dmq1).Some? || dmq1'.Some?)
        && (old(iqmp).Some? || iqmp'.Some?)
      ensures ok ==>
        Value() == Replace(Replace(Replace(old(Value()), Dmp1, dmp1'), Dmq1, dmq1'), Iqmp, iqmp')
      ensures ok ==> dmp1.Some? && dmq1.Some? && iqmp.Some? && !hasDerivedState
      ensures !ok ==> Value() == old(Value()) && hasDerivedState == old(hasDerivedState)
      ensures references == old(references) && meth == old(meth)
    {
      if (dmp1.None? && dmp1'.None?) || (dmq1.None? && dmq1'.None?) || (iqmp.None? && iqmp'.None?) {
        return false;
      }
      if dmp1'.Some? { dmp1 := dmp1'; }
      if dmq1'.Some? { dmq1 := dmq1'; }
      if iqmp'.Some? { iqmp := iqmp'; }
      hasDerivedState := false;
      return true;
    }

    /** RSA_is_opaque: the method marks the key as opaque. */
    predicate IsOpaque()
      reads this
    {
      HasFlag(meth.flags, FlagOpaque)
    }
  }

  /** RSA_flags: the flag word, or 0 for a NULL key (which is reported as an error). */
  function Flags(rsa: Rsa?): (r: bv32)
    reads rsa
    ensures rsa == null ==> r == 0
  {
    if rsa == null then 0 else rsa.flags
  }

  /** RSA_test_flags: the requested bits that are set; none for a NULL key. */
  function TestFlags(rsa: Rsa?, mask: bv32): (r: bv32)
    reads rsa
    ensures r & !mask == 0
    ensures rsa == null ==> r == 0
  {
    if rsa == null then 0 else rsa.flags & mask
  }

  /**
   * RSA_set_flags: adds the given bits to the key's flags; a NULL key is reported as
   * PassedNullParameter and nothing changes.
   */
  method SetFlags(rsa: Rsa?, f: bv32) returns (err: Option<RsaError>)
    modifies rsa
    ensures rsa == null <==> err == Some(PassedNullParameter)
    ensures rsa != null ==> rsa.Value() == old(rsa.Value()).(flags := old(rsa.flags) | f)
    ensures rsa != null ==> rsa.references == old(rsa.references) && rsa.meth == old(rsa.meth)
    ensures rsa != null ==> rsa.hasDerivedState == old(rsa.hasDerivedState)
  {
    if rsa == null {
      return Some(PassedNullParameter);
    }
    rsa.flags := rsa.flags | f;
    return None;
  }

  /** RSA_blinding_on: blinding is used unless the key carries the no-blinding flag. */
  predicate BlindingOn(rsa: Rsa?)
    reads rsa
  {
    rsa != null && !HasFlag(rsa.flags, FlagNoBlinding)
  }

  /**
   * RSA_blinding_off_temp_for_accp_compatibility: sets the no-blinding flag, after which
   * blinding is reported off; every other bit and field is kept.
   */
  method BlindingOffTemp(rsa: Rsa?)
    modifies rsa
    ensures rsa != null ==> rsa.Value() == old(rsa.Value()).(flags := old(rsa.flags) | FlagNoBlinding)
    ensures !BlindingOn(rsa)
    ensures rsa != null ==> rsa.references == old(rsa.references) && rsa.meth == old(rsa.meth)
    ensures rsa != null ==> rsa.hasDerivedState == old(rsa.hasDerivedState)
  {
    if rsa != null {
      rsa.flags := rsa.flags | FlagNoBlinding;
    }
  }

  /** Flags only accumulate: adding bits keeps the old ones and sets the new ones. */
  lemma OrKeepsBits(flags: bv32, f: bv32)
    ensures (flags | f) & f == f
    ensures (flags | f) & flags == flags
  {
  }

  /** After RSA_set_flags(rsa, f), testing f sees all of f, and every bit set before is still set. */
  lemma TestAfterSetFlags(rsa: Rsa, before: bv32, f: bv32)
    requires rsa.flags == before | f
    ensures TestFlags(rsa, f) == f
    ensures TestFlags(rsa, before) == before
  {
    OrKeepsBits(before, f);
  }

  /** Testing a mask after adding bits sees the old bits and the added ones under that mask. */
  lemma OrUnderMask(flags: bv32, f: bv32, mask: bv32)
    ensures (flags | f) & mask == (flags & mask) | (f & mask)
  {
  }
}
