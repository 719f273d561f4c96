/**
 Offline rotation of the key-encryption key (internal/crypto/rewrap.go, envelope.go).
 Every envelope file is classified, all new envelopes are prepared in memory, and only then
 are files replaced, one rename at a time. A crash is a budget of disk steps running out.
 */
module Rewrap {
  import opened Bytes
  import opened Aead

  const KEY_SIZE: nat := 32
  const VERSION: byte := 1
  const PRINT: nat := 16
  const HEAD: nat := 17

  type Key = seq<byte>
  type Name = string
  type Files = map<Name, seq<byte>>

  /** The key primitives: the fingerprint of a key, and the AEAD a key gives. */
  datatype Crypto = Crypto(fp: Key -> seq<byte>, cipher: Key -> Cipher)
  {
    ghost predicate Lawful() {
      && (forall k: Key {:trigger fp(k)} :: |fp(k)| == PRINT)
      && (forall k: Key {:trigger cipher(k)} :: cipher(k).Lawful())
    }

    /** Store's layout: version, key fingerprint, wrapped data key. */
    function Envelope(kek: Key, nonce: seq<byte>, dek: seq<byte>): seq<byte> {
      [VERSION] + fp(kek) + cipher(kek).Encrypt(nonce, dek)
    }

    /** Load: the data key, or an error for a foreign layout, another key or a failed unwrap. */
    function Load(kek: Key, raw: seq<byte>): Option<seq<byte>> {
      if WellFormed(raw) && raw[1..HEAD] == fp(kek) then cipher(kek).Decrypt(raw[HEAD..]) else None
    }

    lemma LoadEnvelope(kek: Key, nonce: seq<byte>, dek: seq<byte>)
      requires Lawful() && |nonce| == NONCE
      ensures Load(kek, Envelope(kek, nonce, dek)) == Some(dek)
    {
      var raw := Envelope(kek, nonce, dek);
      var c := cipher(kek);
      c.DecryptEncrypt(nonce, dek);
      assert raw[1..HEAD] == fp(kek) && raw[HEAD..] == c.Encrypt(nonce, dek);
    }

    /** The fingerprint an envelope carries is kek's. */
    predicate Carries(raw: seq<byte>, kek: Key) {
      WellFormed(raw) && raw[1..HEAD] == fp(kek)
    }
  }

  /** Lawful key primitives exist under which two given keys have different fingerprints. */
  lemma LawfulCryptoExists(kek: Key, next: Key)
    requires kek != next
    ensures exists c: Crypto :: c.Lawful() && c.fp(kek) != c.fp(next)
  {
    var c := Crypto((k: Key) => seq(PRINT, _ => if k == kek then 0 else 1), (_: Key) => Transparent());
    TransparentIsLawful();
    assert c.fp(kek)[0] != c.fp(next)[0];
    assert c.Lawful();
  }

  predicate WellFormed(raw: seq<byte>) { |raw| >= HEAD && raw[0] == VERSION }

  // ----- The directory -----

  /** The names findEnvelopeFiles matches: shard-*.env and audit.env. */
  predicate IsEnvelope(n: Name) {
    n == "audit.env" || (|n| >= 10 && n[..6] == "shard-" && n[|n| - 4..] == ".env")
  }

  function Temp(n: Name): Name { n + ".tmp" }
  function Backup(n: Name): Name { n + ".bak" }

  /** Neither the temporary file nor a backup is ever taken for an envelope. */
  lemma SideFilesAreNoEnvelopes(n: Name)
    ensures !IsEnvelope(Temp(n)) && !IsEnvelope(Backup(n))
  {
    var t, b := Temp(n), Backup(n);
    assert t[|t| - 3] == 't' && b[|b| - 3] == 'b';
    assert "audit.env"[6] == 'e';
  }

  /** names lists the directory's envelopes, each once. */
  ghost predicate Lists(files: Files, names: seq<Name>) {
    && (forall n :: n in names <==> n in files && IsEnvelope(n))
    && (forall i, j :: 0 <= i < j < |names| ==> names[i] != names[j])
  }

  /**
   files is a state a rotation may leave after files0: the same envelopes, each untouched or
   re-wrapped under the new key around the data key it held under the old one.
   */
  ghost predicate Between(c: Crypto, kek: Key, next: Key, files0: Files, files: Files) {
    forall n | IsEnvelope(n) ::
      && (n in files <==> n in files0)
      && (n in files ==> files[n] == files0[n] || Moved(c, kek, next, files0[n], files[n]))
  }

  predicate Moved(c: Crypto, kek: Key, next: Key, raw0: seq<byte>, raw: seq<byte>) {
    c.Load(kek, raw0).Some? && c.Load(next, raw) == c.Load(kek, raw0)
  }

  /** Some envelope, resp. every envelope, carries the key's fingerprint. */
  ghost predicate AnyCarries(c: Crypto, files: Files, kek: Key) {
    exists n | n in files && IsEnvelope(n) :: c.Carries(files[n], kek)
  }

  ghost predicate AllCarry(c: Crypto, files: Files, kek: Key) {
    forall n | n in files && IsEnvelope(n) :: c.Carries(files[n], kek)
  }

  /** Every envelope unwraps under one of the two keys. */
  ghost predicate Healthy(c: Crypto, kek: Key, next: Key, files: Files) {
    forall n | n in files && IsEnvelope(n) :: Dek(c, kek, next, files[n]).Some?
  }

  function Dek(c: Crypto, kek: Key, next: Key, raw: seq<byte>): Option<seq<byte>> {
    if c.Load(kek, raw).Some? then c.Load(kek, raw) else c.Load(next, raw)
  }

  // ----- The run -----

  datatype Refusal = KeyLength | SameKey | NoFiles | BadFormat | OldKeyMismatch | MixedKeys | Unwrap

  datatype Outcome = Crashed | Refused(why: Refusal) | Done(rewrapped: nat, skipped: nat, total: nat)

  /** How many of the listed envelopes carry the key's fingerprint. */
  function Count(c: Crypto, files: Files, names: seq<Name>, kek: Key): nat
    requires forall n :: n in names ==> n in files
  {
    if names == [] then 0
    else
      var init := names[..|names| - 1];
      Count(c, files, init, kek) + if c.Carries(files[names[|names| - 1]], kek) then 1 else 0
  }

  lemma {:induction false} CountZero(c: Crypto, files: Files, names: seq<Name>, kek: Key)
    requires forall n :: n in names ==> n in files
    ensures Count(c, files, names, kek) == 0 <==> forall n :: n in names ==> !c.Carries(files[n], kek)
    ensures Count(c, files, names, kek) <= |names|
  {
    if names != [] { CountZero(c, files, names[..|names| - 1], kek); }
  }

  lemma CountSnoc(c: Crypto, files: Files, names: seq<Name>, i: nat, kek: Key)
    requires i < |names| && forall n :: n in names ==> n in files
    ensures Count(c, files, names[..i + 1], kek)
         == Count(c, files, names[..i], kek) + if c.Carries(files[names[i]], kek) then 1 else 0
  {
    assert names[..i + 1][..i] == names[..i];
  }

  /** The two fingerprints differ, so no envelope carries both. */
  lemma {:induction false} CountBoth(c: Crypto, files: Files, names: seq<Name>, kek: Key, next: Key)
    requires c.fp(kek) != c.fp(next) && forall n :: n in names ==> n in files
    ensures Count(c, files, names, kek) + Count(c, files, names, next) <= |names|
    ensures Count(c, files, names, kek) + Count(c, files, names, next) == |names| <==>
            forall n :: n in names ==> c.Carries(files[n], kek) || c.Carries(files[n], next)
  {
    if names != [] { CountBoth(c, files, names[..|names| - 1], kek, next); }
  }

  /** Why a run that is not cut short is refused, from what the directory held. */
  ghost predicate Refuses(c: Crypto, kek: Key, next: Key, files: Files) {
    || |kek| != KEY_SIZE || |next| != KEY_SIZE || kek == next
    || (forall n :: n in files ==> !IsEnvelope(n))
    || (exists n | n in files && IsEnvelope(n) :: !WellFormed(files[n]))
    || if AnyCarries(c, files, kek) then
         exists n | n in files && IsEnvelope(n) :: !c.Carries(files[n], next) && c.Load(kek, files[n]).None?
       else !AnyCarries(c, files, next)
  }

  class Directory {
    var files: Files

    constructor (files: Files)
      ensures this.files == files
    {
      this.files := files;
    }

    /**
     atomicWrite: temporary file, sync, rename. With the budget spent, the temporary file may
     hold anything (torn); the rename either happened or did not.
     */
    method AtomicWrite(path: Name, data: seq<byte>, budget: nat, torn: seq<byte>) returns (left: nat, crashed: bool)
      modifies this
      ensures crashed ==> budget < 2 && left == 0
      ensures !crashed ==> left + 2 == budget
      ensures forall n :: n != path && n != Temp(path) ==>
                (n in files <==> n in old(files)) && (n in files ==> files[n] == old(files)[n])
      ensures !crashed ==> path in files && files[path] == data && Temp(path) !in files
      ensures crashed ==> (path in files <==> path in old(files)) && (path in files ==> files[path] == old(files)[path])
    {
      var tmp := Temp(path);
      assert |tmp| == |path| + 4;
      if budget == 0 {
        files := files[tmp := torn];
        return 0, true;
      }
      files := files[tmp := data];
      if budget == 1 { return 0, true; }
      files := files[path := files[tmp]] - {tmp};
      return budget - 2, false;
    }

    /** copyFile, not atomic: cut short, the backup may hold anything. */
    method CopyFile(path: Name, dst: Name, budget: nat, torn: seq<byte>) returns (left: nat, crashed: bool)
      requires path in files
      modifies this
      ensures crashed <==> budget == 0
      ensures left == if crashed then 0 else budget - 1
      ensures forall n :: n != dst ==> (n in files <==> n in old(files)) && (n in files ==> files[n] == old(files)[n])
      ensures !crashed ==> dst in files && files[dst] == old(files)[path]
    {
      if budget == 0 {
        files := files[dst := torn];
        return 0, true;
      }
      files := files[dst := files[path]];
      return budget - 1, false;
    }

    /** The classification loop: the two counters, or an envelope of foreign layout. */
    method Classify(c: Crypto, kek: Key, next: Key, names: seq<Name>)
      returns (ok: bool, olds: nat, news: nat, unknown: nat)
      requires c.fp(kek) != c.fp(next) && forall n :: n in names ==> n in files
      ensures ok <==> forall n :: n in names ==> WellFormed(files[n])
      ensures ok ==> olds == Count(c, files, names, kek) && news == Count(c, files, names, next)
      ensures ok ==> unknown == |names| - olds - news
    {
      olds, news, unknown := 0, 0, 0;
      for i := 0 to |names|
        invariant forall j :: 0 <= j < i ==> WellFormed(files[names[j]])
        invariant olds == Count(c, files, names[..i], kek) && news == Count(c, files, names[..i], next)
        invariant unknown == i - olds - news
      {
        var raw := files[names[i]];
        CountSnoc(c, files, names, i, kek);
        CountSnoc(c, files, names, i, next);
        if |raw| < HEAD || raw[0] != VERSION {
          assert names[i] in names;
          return false, 0, 0, 0;
        }
        if raw[1..HEAD] == c.fp(kek) {
          olds := olds + 1;
        } else if raw[1..HEAD] == c.fp(next) {
          news := news + 1;
        } else {
          unknown := unknown + 1;
        }
      }
      assert names[..|names|] == names;
      ok := true;
    }

    /** Phase 1: every envelope of the old key is opened and wrapped again, in memory. */
    method Prepare(c: Crypto, kek: Key, next: Key, names: seq<Name>, rand: nat -> seq<byte>)
      returns (ok: bool, toWrite: seq<(Name, seq<byte>)>, skipped: nat)
      requires c.Lawful() && c.fp(kek) != c.fp(next) && (forall i :: |rand(i)| == NONCE) && Lists(files, names)
      requires forall n :: n in names ==> c.Carries(files[n], kek) || c.Carries(files[n], next)
      ensures !ok <==> exists n :: n in names && !c.Carries(files[n], next) && c.Load(kek, files[n]).None?
      ensures ok ==> Prepared(c, kek, next, files, names, toWrite)
      ensures ok ==> skipped == Count(c, files, names, next) && |toWrite| == Count(c, files, names, kek)
    {
      hide Crypto.Envelope, Crypto.Load, Crypto.Carries, Prepared, Moved;
      toWrite, skipped := [], 0;
      assert names[..0] == [];
      PreparedNone(c, kek, next, files);
      for i := 0 to |names|
        invariant forall j :: 0 <= j < i ==> c.Carries(files[names[j]], next) || c.Load(kek, files[names[j]]).Some?
        invariant Prepared(c, kek, next, files, names[..i], toWrite)
        invariant skipped == Count(c, files, names[..i], next) && |toWrite| == Count(c, files, names[..i], kek)
      {
        var name := names[i];
        CountSnoc(c, files, names, i, kek);
        CountSnoc(c, files, names, i, next);
        assert name in names;
        if c.Carries(files[name], next) {
          PreparedSkip(c, kek, next, files, names, i, toWrite);
          NotBoth(c, kek, next, files[name]);
          skipped := skipped + 1;
          continue;
        }
        CarriedLoad(c, kek, files[name]);
        var dek := c.cipher(kek).Decrypt(files[name][HEAD..]);
        if dek.None? { return false, [], 0; }
        c.LoadEnvelope(next, rand(i), dek.value);
        var buf := c.Envelope(next, rand(i), dek.value);
        PreparedAdd(c, kek, next, files, names, i, toWrite, buf);
        toWrite := toWrite + [(name, buf)];
      }
      assert names[..|names|] == names;
      ok := true;
    }

    lemma CarriedLoad(c: Crypto, kek: Key, raw: seq<byte>)
      requires c.Carries(raw, kek)
      ensures |raw| >= HEAD && c.Load(kek, raw) == c.cipher(kek).Decrypt(raw[HEAD..])
    {}

    lemma NotBoth(c: Crypto, kek: Key, next: Key, raw: seq<byte>)
      requires c.fp(kek) != c.fp(next)
      ensures !(c.Carries(raw, kek) && c.Carries(raw, next))
    {}

    /** One prepared envelope: the backup if asked for, then the atomic replacement. */
    method ReplaceOne(path: Name, buf: seq<byte>, retain: bool, budget: nat, torn: seq<byte>)
      returns (left: nat, crashed: bool)
      requires path in files && IsEnvelope(path)
      modifies this
      ensures forall n | IsEnvelope(n) && n != path :: (n in files <==> n in old(files)) &&
                (n in files ==> files[n] == old(files)[n])
      ensures path in files && files[path] == if crashed then old(files)[path] else buf
      ensures crashed ==> budget < 3
      ensures !crashed ==> left + 3 >= budget
      ensures !crashed && retain ==> Backup(path) in files && files[Backup(path)] == old(files)[path]
      ensures forall n :: n !in {path, Temp(path), Backup(path)} ==>
                (n in files <==> n in old(files)) && (n in files ==> files[n] == old(files)[n])
    {
      SideFilesAreNoEnvelopes(path);
      OwnSideFiles(path);
      left := budget;
      if retain {
        left, crashed := CopyFile(path, Backup(path), left, torn);
        if crashed { return; }
      }
      left, crashed := AtomicWrite(path, buf, left, torn);
    }

    /** Phase 2: one backup and one atomic replacement per prepared envelope. */
    method Replace(c: Crypto, kek: Key, next: Key, names: seq<Name>, toWrite: seq<(Name, seq<byte>)>, retain: bool,
                   budget: nat, torn: seq<byte>) returns (crashed: bool)
      requires Lists(files, names) && Prepared(c, kek, next, files, names, toWrite)
      modifies this
      ensures Between(c, kek, next, old(files), files)
      ensures crashed ==> budget < 3 * |toWrite|
      ensures !crashed ==>
                forall n :: n in names ==>
                  n in files && (c.Carries(old(files)[n], next) || Moved(c, kek, next, old(files)[n], files[n]))
      ensures !crashed && retain ==> Retained(old(files), files, toWrite, |toWrite|)
    {
      hide Prepared, Between, Progress, Moved, Crypto.Carries, Retained;
      var left: nat := budget;
      PreparedNames(c, kek, next, files, names, toWrite);
      ProgressNone(files, toWrite);
      RetainedNone(files, toWrite);
      for i := 0 to |toWrite|
        invariant left + 3 * i >= budget
        invariant Progress(old(files), files, toWrite, i)
        invariant retain ==> Retained(old(files), files, toWrite, i)
      {
        ghost var before := files;
        ProgressNames(old(files), files, toWrite, i);
        left, crashed := ReplaceOne(toWrite[i].0, toWrite[i].1, retain, left, torn);
        if crashed {
          ProgressSame(old(files), before, files, toWrite, i);
          ProgressIsBetween(c, kek, next, old(files), files, names, toWrite, i);
          return;
        }
        if retain { RetainedStep(old(files), before, files, toWrite, i); }
        ProgressStep(old(files), before, files, toWrite, i);
      }
      ProgressIsBetween(c, kek, next, old(files), files, names, toWrite, |toWrite|);
      crashed := false;
    }

    /**
     RewrapEnvelopes. It is refused exactly when Refuses holds and then no file has changed;
     whatever the crash point, what it leaves is Between; and done means no envelope carries
     the old fingerprint any more.
     */
    method RewrapEnvelopes(c: Crypto, kek: Key, next: Key, names: seq<Name>, retain: bool, rand: nat -> seq<byte>,
                           budget: nat, torn: seq<byte>) returns (r: Outcome)
      requires c.Lawful() && (kek != next ==> c.fp(kek) != c.fp(next)) && (forall i :: |rand(i)| == NONCE)
               && Lists(files, names)
      modifies this
      ensures Between(c, kek, next, old(files), files)
      ensures r.Refused? <==> Refuses(c, kek, next, old(files))
      ensures r.Refused? ==> files == old(files)
      ensures r.Crashed? ==> budget < 3 * |names|
      ensures r.Done? ==> !AnyCarries(c, files, kek) && (AnyCarries(c, old(files), kek) ==> AllCarry(c, files, next))
      ensures r.Done? && retain ==> forall n :: n in names && c.Carries(old(files)[n], kek) ==>
                Backup(n) in files && files[Backup(n)] == old(files)[n]
      ensures r.Done? ==> r == Done(Count(c, old(files), names, kek), Count(c, old(files), names, next), |names|)
    {
      hide Prepared, Between, Moved, Crypto.Carries, Crypto.Load, Retained;
      Untouched(c, kek, next, files);
      if |kek| != KEY_SIZE || |next| != KEY_SIZE { return Refused(KeyLength); }
      if kek == next { return Refused(SameKey); }
      if |names| == 0 { return Refused(NoFiles); }
      assert names[0] in names;
      var ok, olds, news, unknown := Classify(c, kek, next, names);
      if !ok { return Refused(BadFormat); }
      CountZero(c, files, names, kek);
      CountZero(c, files, names, next);
      CountBoth(c, files, names, kek, next);
      if olds == 0 && news > 0 { return Done(0, news, |names|); }
      if olds == 0 { return Refused(OldKeyMismatch); }
      if unknown > 0 {
        assert exists n :: n in names && !c.Carries(files[n], kek) && !c.Carries(files[n], next);
        UnknownRefuses(c, kek, next, files, names);
        return Refused(MixedKeys);
      }
      var toWrite, skipped;
      ok, toWrite, skipped := Prepare(c, kek, next, names, rand);
      if !ok { return Refused(Unwrap); }
      var crashed := Replace(c, kek, next, names, toWrite, retain, budget, torn);
      if crashed { return Crashed; }
      AllMoved(c, kek, next, old(files), files, names);
      if retain { AllRetained(c, kek, next, old(files), files, names, toWrite); }
      r := Done(|toWrite|, skipped, |names|);
    }
  }

  /** toWrite holds, for every listed envelope not yet under the new key, its re-wrapped form, once. */
  ghost predicate Prepared(c: Crypto, kek: Key, next: Key, files: Files, names: seq<Name>,
      toWrite: seq<(Name, seq<byte>)>)
    requires forall n :: n in names ==> n in files
  {
    && (forall i :: 0 <= i < |toWrite| ==>
          toWrite[i].0 in names && Moved(c, kek, next, files[toWrite[i].0], toWrite[i].1))
    && (forall i, j :: 0 <= i < j < |toWrite| ==> toWrite[i].0 != toWrite[j].0)
    && (forall n :: n in names ==> c.Carries(files[n], next) || exists i :: 0 <= i < |toWrite| && toWrite[i].0 == n)
  }

  lemma PreparedNone(c: Crypto, kek: Key, next: Key, files: Files)
    ensures Prepared(c, kek, next, files, [], [])
  {}

  lemma PreparedSkip(c: Crypto, kek: Key, next: Key, files: Files, names: seq<Name>, i: nat,
      toWrite: seq<(Name, seq<byte>)>)
    requires i < |names| && forall n :: n in names ==> n in files
    requires Prepared(c, kek, next, files, names[..i], toWrite) && c.Carries(files[names[i]], next)
    ensures Prepared(c, kek, next, files, names[..i + 1], toWrite)
  {
    hide Moved, Crypto.Carries;
    assert names[..i + 1] == names[..i] + [names[i]];
  }

  lemma PreparedAdd(c: Crypto, kek: Key, next: Key, files: Files, names: seq<Name>, i: nat,
      toWrite: seq<(Name, seq<byte>)>, buf: seq<byte>)
    requires i < |names| && Lists(files, names)
    requires Prepared(c, kek, next, files, names[..i], toWrite)
    requires c.Load(kek, files[names[i]]).Some? && c.Load(next, buf) == c.Load(kek, files[names[i]])
    ensures Prepared(c, kek, next, files, names[..i + 1], toWrite + [(names[i], buf)])
  {
    assert Moved(c, kek, next, files[names[i]], buf);
    hide Moved, Crypto.Carries, Crypto.Load;
    assert names[..i + 1] == names[..i] + [names[i]];
    var out := toWrite + [(names[i], buf)];
    assert out[|toWrite|].0 == names[i];
    forall n | n in names[..i + 1] ensures c.Carries(files[n], next) || exists k :: 0 <= k < |out| && out[k].0 == n {
      if n in names[..i] && !c.Carries(files[n], next) {
        var k :| 0 <= k < |toWrite| && toWrite[k].0 == n;
        assert out[k].0 == n;
      }
    }
  }

  lemma PreparedNames(c: Crypto, kek: Key, next: Key, files: Files, names: seq<Name>, toWrite: seq<(Name, seq<byte>)>)
    requires Lists(files, names) && Prepared(c, kek, next, files, names, toWrite)
    ensures forall i :: 0 <= i < |toWrite| ==> toWrite[i].0 in files && IsEnvelope(toWrite[i].0)
    ensures forall i, j :: 0 <= i < j < |toWrite| ==> toWrite[i].0 != toWrite[j].0
  {
    hide Moved, IsEnvelope;
  }

  lemma ProgressNone(files: Files, toWrite: seq<(Name, seq<byte>)>)
    ensures Progress(files, files, toWrite, 0)
  {}

  lemma ProgressNames(files0: Files, files: Files, toWrite: seq<(Name, seq<byte>)>, i: nat)
    requires i <= |toWrite| && Progress(files0, files, toWrite, i)
    ensures forall n | IsEnvelope(n) :: n in files <==> n in files0
  {}

  lemma ProgressSame(files0: Files, f1: Files, f2: Files, toWrite: seq<(Name, seq<byte>)>, i: nat)
    requires i < |toWrite| && Progress(files0, f1, toWrite, i)
    requires forall a :: 0 <= a < |toWrite| ==> IsEnvelope(toWrite[a].0)
    requires forall n | IsEnvelope(n) :: (n in f2 <==> n in f1) && (n in f2 ==> f2[n] == f1[n])
    ensures Progress(files0, f2, toWrite, i)
  {
    hide IsEnvelope;
  }

  /** The first i replacements are in place and every other envelope is untouched. */
  ghost predicate Progress(files0: Files, files: Files, toWrite: seq<(Name, seq<byte>)>, i: nat)
    requires i <= |toWrite|
  {
    && (forall n | IsEnvelope(n) :: n in files <==> n in files0)
    && (forall j :: 0 <= j < i ==> toWrite[j].0 in files && files[toWrite[j].0] == toWrite[j].1)
    && (forall n | n in files && IsEnvelope(n) ::
          files[n] == files0[n] || exists j :: 0 <= j < i && toWrite[j].0 == n)
  }

  /** The backups of the first i replacements hold the old envelopes. */
  ghost predicate Retained(files0: Files, files: Files, toWrite: seq<(Name, seq<byte>)>, i: nat)
    requires i <= |toWrite|
  {
    forall j :: 0 <= j < i ==>
      && toWrite[j].0 in files0 && Backup(toWrite[j].0) in files && files[Backup(toWrite[j].0)] == files0[toWrite[j].0]
  }

  lemma RetainedNone(files: Files, toWrite: seq<(Name, seq<byte>)>)
    ensures Retained(files, files, toWrite, 0)
  {}

  lemma OwnSideFiles(n: Name)
    ensures Backup(n) != n && Temp(n) != n && Backup(n) != Temp(n)
  {
    assert |Backup(n)| == |Temp(n)| == |n| + 4;
    assert Backup(n)[|n| + 1] == 'b' && Temp(n)[|n| + 1] == 't';
  }

  lemma BackupsApart(m: Name, n: Name)
    requires m != n && IsEnvelope(n)
    ensures Backup(m) !in {n, Temp(n), Backup(n)}
  {
    SideFilesAreNoEnvelopes(m);
    assert Backup(m)[..|m|] == m && Backup(n)[..|n|] == n;
    assert Backup(m)[|m| + 1] == 'b' && Temp(n)[|n| + 1] == 't';
  }

  lemma RetainedStep(files0: Files, f1: Files, f2: Files, toWrite: seq<(Name, seq<byte>)>, i: nat)
    requires i < |toWrite| && Retained(files0, f1, toWrite, i) && Progress(files0, f1, toWrite, i)
    requires forall a, b :: 0 <= a < b < |toWrite| ==> toWrite[a].0 != toWrite[b].0
    requires forall a :: 0 <= a < |toWrite| ==> toWrite[a].0 in files0 && IsEnvelope(toWrite[a].0)
    requires toWrite[i].0 in f1 && Backup(toWrite[i].0) in f2 && f2[Backup(toWrite[i].0)] == f1[toWrite[i].0]
    requires forall n :: n !in {toWrite[i].0, Temp(toWrite[i].0), Backup(toWrite[i].0)} ==>
               (n in f2 <==> n in f1) && (n in f2 ==> f2[n] == f1[n])
    ensures Retained(files0, f2, toWrite, i + 1)
  {
    hide Temp, IsEnvelope;
    assert f1[toWrite[i].0] == files0[toWrite[i].0];
    forall j | 0 <= j < i
      ensures Backup(toWrite[j].0) in f2 && f2[Backup(toWrite[j].0)] == files0[toWrite[j].0]
    {
      assert toWrite[j].0 != toWrite[i].0;
      BackupsApart(toWrite[j].0, toWrite[i].0);
    }
  }

  lemma ProgressStep(files0: Files, f1: Files, f2: Files, toWrite: seq<(Name, seq<byte>)>, i: nat)
    requires i < |toWrite| && Progress(files0, f1, toWrite, i)
    requires forall a, b :: 0 <= a < b < |toWrite| ==> toWrite[a].0 != toWrite[b].0
    requires forall a :: 0 <= a < |toWrite| ==> IsEnvelope(toWrite[a].0)
    requires toWrite[i].0 in f1 && toWrite[i].0 in f2 && f2[toWrite[i].0] == toWrite[i].1
    requires forall n | IsEnvelope(n) && n != toWrite[i].0 :: (n in f2 <==> n in f1) && (n in f2 ==> f2[n] == f1[n])
    ensures Progress(files0, f2, toWrite, i + 1)
  {
    hide IsEnvelope;
  }

  lemma ProgressIsBetween(c: Crypto, kek: Key, next: Key, files0: Files, files: Files, names: seq<Name>,
                          toWrite: seq<(Name, seq<byte>)>, i: nat)
    requires i <= |toWrite| && Lists(files0, names) && Prepared(c, kek, next, files0, names, toWrite)
    requires Progress(files0, files, toWrite, i)
    ensures Between(c, kek, next, files0, files)
    ensures i == |toWrite| ==> forall n :: n in names ==>
                                 n in files && (c.Carries(files0[n], next) || Moved(c, kek, next, files0[n], files[n]))
  {
    hide Moved, Crypto.Carries;
  }

  lemma Untouched(c: Crypto, kek: Key, next: Key, files: Files)
    ensures Between(c, kek, next, files, files)
  {}

  lemma UnknownRefuses(c: Crypto, kek: Key, next: Key, files: Files, names: seq<Name>)
    requires Lists(files, names) && exists n :: n in names && !c.Carries(files[n], kek) && !c.Carries(files[n], next)
    requires exists n :: n in names && c.Carries(files[n], kek)
    ensures Refuses(c, kek, next, files)
  {
    var n :| n in names && !c.Carries(files[n], kek) && !c.Carries(files[n], next);
    assert c.Load(kek, files[n]).None?;
  }

  lemma AllRetained(c: Crypto, kek: Key, next: Key, files0: Files, files: Files, names: seq<Name>,
      toWrite: seq<(Name, seq<byte>)>)
    requires c.fp(kek) != c.fp(next) && Lists(files0, names) && Prepared(c, kek, next, files0, names, toWrite)
    requires Retained(files0, files, toWrite, |toWrite|)
    ensures forall n :: n in names && c.Carries(files0[n], kek) ==> Backup(n) in files && files[Backup(n)] == files0[n]
  {
    hide Moved, Backup, IsEnvelope;
    forall n | n in names && c.Carries(files0[n], kek) ensures Backup(n) in files && files[Backup(n)] == files0[n] {
      assert !c.Carries(files0[n], next);
      var j :| 0 <= j < |toWrite| && toWrite[j].0 == n;
    }
  }

  lemma AllMoved(c: Crypto, kek: Key, next: Key, files0: Files, files: Files, names: seq<Name>)
    requires c.fp(kek) != c.fp(next) && Lists(files0, names) && Between(c, kek, next, files0, files)
    requires forall n :: n in names ==>
               n in files && (c.Carries(files0[n], next) || Moved(c, kek, next, files0[n], files[n]))
    ensures AllCarry(c, files, next) && !AnyCarries(c, files, kek)
  {
    forall n | n in files && IsEnvelope(n) ensures c.Carries(files[n], next) && !c.Carries(files[n], kek) {
      assert n in names;
    }
  }

  // ----- Crashes and reruns -----

  /** Attempts compose: what a second run leaves is still Between what the first one found. */
  lemma BetweenTrans(c: Crypto, kek: Key, next: Key, f0: Files, f1: Files, f2: Files)
    requires c.fp(kek) != c.fp(next) && Between(c, kek, next, f0, f1) && Between(c, kek, next, f1, f2)
    ensures Between(c, kek, next, f0, f2)
  {
    hide IsEnvelope;
  }

  /**
   Crash safety of the rotation: over any chain of attempts, each cut anywhere, every envelope
   unwraps to its original data key, under exactly one of the two keys.
   */
  lemma {:induction false} EveryCrashPointUnwraps(c: Crypto, kek: Key, next: Key, states: seq<Files>)
    requires |states| > 0 && c.fp(kek) != c.fp(next) && Healthy(c, kek, next, states[0])
    requires forall i :: 0 <= i < |states| - 1 ==> Between(c, kek, next, states[i], states[i + 1])
    ensures var f0, f := states[0], states[|states| - 1];
            && Between(c, kek, next, f0, f) && Healthy(c, kek, next, f)
            && forall n | n in f && IsEnvelope(n) ::
                 && n in f0 && Dek(c, kek, next, f[n]) == Dek(c, kek, next, f0[n])
                 && (c.Load(kek, f[n]).Some? <==> c.Load(next, f[n]).None?)
  {
    var k := |states| - 1;
    if k == 0 {
      Untouched(c, kek, next, states[0]);
    } else {
      EveryCrashPointUnwraps(c, kek, next, states[..k]);
      hide Between;
      assert Between(c, kek, next, states[k - 1], states[k]);
      BetweenTrans(c, kek, next, states[0], states[k - 1], states[k]);
    }
    BetweenDek(c, kek, next, states[0], states[k]);
  }

  lemma BetweenDek(c: Crypto, kek: Key, next: Key, f0: Files, f: Files)
    requires c.fp(kek) != c.fp(next) && Healthy(c, kek, next, f0) && Between(c, kek, next, f0, f)
    ensures Healthy(c, kek, next, f)
    ensures forall n | n in f && IsEnvelope(n) ::
              && n in f0 && Dek(c, kek, next, f[n]) == Dek(c, kek, next, f0[n])
              && (c.Load(kek, f[n]).Some? <==> c.Load(next, f[n]).None?)
  {
    hide IsEnvelope;
  }

  /** A healthy directory with an envelope in it is never refused, however often it was cut short. */
  lemma HealthyIsAccepted(c: Crypto, kek: Key, next: Key, files: Files)
    requires |kek| == |next| == KEY_SIZE && kek != next && c.fp(kek) != c.fp(next)
    requires Healthy(c, kek, next, files) && exists n :: n in files && IsEnvelope(n)
    ensures !Refuses(c, kek, next, files)
  {
    var n :| n in files && IsEnvelope(n);
    assert Dek(c, kek, next, files[n]).Some?;
  }

  /**
   When the documented rule, that a third fingerprint aborts the run, holds of the code: a
   directory with such an envelope is refused if and only if some envelope still carries the
   old key or none carries the new one.
   */
  lemma ThirdKeyRefused(c: Crypto, kek: Key, next: Key, files: Files, n: Name)
    requires |kek| == |next| == KEY_SIZE && kek != next && n in files && IsEnvelope(n)
    requires !c.Carries(files[n], kek) && !c.Carries(files[n], next)
    requires forall m | m in files && IsEnvelope(m) :: WellFormed(files[m])
    ensures Refuses(c, kek, next, files) <==> AnyCarries(c, files, kek) || !AnyCarries(c, files, next)
  {
    assert c.Load(kek, files[n]).None?;
  }

  /** Two envelopes, one under the new key and one under a third: the run is not refused, and changes nothing. */
  lemma ThirdKeyPasses(c: Crypto, kek: Key, next: Key, third: Key)
    requires c.Lawful() && |kek| == |next| == KEY_SIZE && kek != next
    requires c.fp(kek) != c.fp(next) && c.fp(third) != c.fp(next) && c.fp(third) != c.fp(kek)
    ensures var files: Files := map["shard-0.env" := [VERSION] + c.fp(next), "audit.env" := [VERSION] + c.fp(third)];
            && !Refuses(c, kek, next, files)
            && exists n :: n in files && IsEnvelope(n) && !c.Carries(files[n], kek) && !c.Carries(files[n], next)
  {
    var a, b := [VERSION] + c.fp(next), [VERSION] + c.fp(third);
    var files: Files := map["shard-0.env" := a, "audit.env" := b];
    assert a[1..HEAD] == c.fp(next) && b[1..HEAD] == c.fp(third);
    assert IsEnvelope("shard-0.env") by { assert "shard-0.env"[..6] == "shard-" && "shard-0.env"[7..] == ".env"; }
    assert IsEnvelope("audit.env");
    assert c.Carries(files["shard-0.env"], next) && !c.Carries(files["audit.env"], next)
           && !c.Carries(files["audit.env"], kek);
    ThirdKeyRefused(c, kek, next, files, "audit.env");
  }

  /** One attempt: how many disk steps it gets, and what a torn file is left with. */
  datatype Attempt = Attempt(budget: nat, torn: seq<byte>, retain: bool)

  /**
   The rotation as an operator runs it: any number of attempts, each cut anywhere or finished,
   then one that is left alone. All envelopes end under the new key with their data keys.
   */
  method Rotate(dir: Directory, c: Crypto, kek: Key, next: Key, names: seq<Name>, rand: nat -> seq<byte>,
      attempts: seq<Attempt>)
    requires c.Lawful() && |kek| == |next| == KEY_SIZE && kek != next && c.fp(kek) != c.fp(next)
    requires (forall i :: |rand(i)| == NONCE) && Lists(dir.files, names) && names != []
             && Healthy(c, kek, next, dir.files)
    modifies dir
    ensures Lists(dir.files, names)
    ensures forall n :: n in names ==>
              c.Load(next, dir.files[n]) == Dek(c, kek, next, old(dir.files)[n]) && c.Load(next, dir.files[n]).Some?
  {
    hide Between, Healthy, Refuses, AnyCarries, AllCarry;
    Untouched(c, kek, next, dir.files);
    for i := 0 to |attempts|
      invariant Lists(dir.files, names) && Healthy(c, kek, next, dir.files)
      invariant Between(c, kek, next, old(dir.files), dir.files)
    {
      ghost var before := dir.files;
      var _ := dir.RewrapEnvelopes(c, kek, next, names, attempts[i].retain, rand, attempts[i].budget, attempts[i].torn);
      StillListed(c, kek, next, before, dir.files, names);
      BetweenTrans(c, kek, next, old(dir.files), before, dir.files);
      BetweenDek(c, kek, next, before, dir.files);
    }
    ghost var before := dir.files;
    assert names[0] in names;
    HealthyIsAccepted(c, kek, next, dir.files);
    var r := dir.RewrapEnvelopes(c, kek, next, names, false, rand, 3 * |names|, []);
    StillListed(c, kek, next, before, dir.files, names);
    BetweenTrans(c, kek, next, old(dir.files), before, dir.files);
    AllUnderNew(c, kek, next, old(dir.files), dir.files, names);
  }

  lemma StillListed(c: Crypto, kek: Key, next: Key, f0: Files, f: Files, names: seq<Name>)
    requires Between(c, kek, next, f0, f) && Lists(f0, names)
    ensures Lists(f, names)
  {
    hide IsEnvelope;
  }

  lemma AllUnderNew(c: Crypto, kek: Key, next: Key, f0: Files, f: Files, names: seq<Name>)
    requires c.fp(kek) != c.fp(next) && Healthy(c, kek, next, f0) && Between(c, kek, next, f0, f)
    requires Lists(f, names) && Lists(f0, names) && !AnyCarries(c, f, kek)
    ensures forall n :: n in names ==> c.Load(next, f[n]) == Dek(c, kek, next, f0[n]) && c.Load(next, f[n]).Some?
  {
    BetweenDek(c, kek, next, f0, f);
    forall n | n in names ensures c.Load(next, f[n]) == Dek(c, kek, next, f0[n]) && c.Load(next, f[n]).Some? {
      assert n in f && IsEnvelope(n);
      assert !c.Carries(f[n], kek);
      assert c.Load(kek, f[n]).None?;
      assert Dek(c, kek, next, f0[n]).Some?;
    }
  }
}
