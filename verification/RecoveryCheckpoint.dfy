/** The recovery checkpoint record: how stage 2 writes it and what the card tools accept and read back. */
module RecoveryCheckpoint {
  import opened Common

  const MAGIC: Bytes := [0x44, 0x43, 0x53, 0x36, 0x52, 0x43, 0x30, 0x31]            // DCS6RC01
  const UNIVERSAL_MAGIC: Bytes := [0x44, 0x43, 0x53, 0x36, 0x52, 0x43, 0x30, 0x32]  // DCS6RC02
  const STOCK_BACKUP_SIZE := 0x7C0000

  // modeled-camera-authorization, NUL
  const AUTHORIZATION_PREFIX: Bytes :=
    [0x6d, 0x6f, 0x64, 0x65, 0x6c, 0x65, 0x64, 0x2d, 0x63, 0x61, 0x6d, 0x65, 0x72, 0x61, 0x2d,
     0x61, 0x75, 0x74, 0x68, 0x6f, 0x72, 0x69, 0x7a, 0x61, 0x74, 0x69, 0x6f, 0x6e, 0x00]

  ghost predicate IsSha256(sha: Hasher) {
    forall x :: |sha(x)| == 32
  }

  /** Four big-endian bytes. */
  function Be32(n: nat): (r: Bytes)
    requires n < 0x1_0000_0000
    ensures |r| == 4
  {
    [Byte(n / 0x100_0000), Byte(n / 0x1_0000 % 0x100), Byte(n / 0x100 % 0x100), Byte(n % 0x100)]
  }

  function FromBe32(b: Bytes): nat
    requires |b| == 4
  {
    ((b[0] as int * 256 + b[1] as int) * 256 + b[2] as int) * 256 + b[3] as int
  }

  lemma Be32RoundTrip(n: nat)
    requires n < 0x1_0000_0000
    ensures FromBe32(Be32(n)) == n
  {
    assert n / 0x100_0000 * 256 + n / 0x1_0000 % 0x100 == n / 0x1_0000;
    assert n / 0x1_0000 * 256 + n / 0x100 % 0x100 == n / 0x100;
  }

  /** Both record forms bind the backup and stage 2 by size and digest. */
  function Binding(sha: Hasher, backup: Bytes, stage2: Bytes): Bytes
    requires |backup| < 0x1_0000_0000 && |stage2| < 0x1_0000_0000
  {
    Be32(|backup|) + Be32(|stage2|) + sha(backup) + sha(stage2)
  }

  /** The authorization the installer model stands in for a camera's own. */
  function ModeledAuthorization(sha: Hasher, provisioning: Bytes): Bytes {
    AUTHORIZATION_PREFIX + sha(provisioning)
  }

  /** The record stage 2 writes before it changes anything; the longer form when it provisions a camera. */
  function Record(sha: Hasher, backup: Bytes, kernel: Bytes, system: Bytes, provisioning: Bytes): Bytes
    requires |backup| < 0x1_0000_0000 && |kernel| + |system| < 0x1_0000_0000
  {
    if provisioning == [] then MAGIC + Binding(sha, backup, kernel + system)
    else UNIVERSAL_MAGIC + Binding(sha, backup, kernel + system)
         + sha(ModeledAuthorization(sha, provisioning)) + sha(provisioning)
  }

  /** The card tools' check of a checkpoint lying beside a backup and a stage-2 file. */
  function Accepts(sha: Hasher, backup: Bytes, checkpoint: Bytes, stage2: Bytes,
                   authorization: Option<Bytes>, provisioning: Option<Bytes>, allowUnverified: bool): bool
    requires |stage2| < 0x1_0000_0000
  {
    if |backup| != STOCK_BACKUP_SIZE then false
    else
      var binding := Binding(sha, backup, stage2);
      if MAGIC <= checkpoint then checkpoint == MAGIC + binding
      else if UNIVERSAL_MAGIC <= checkpoint then
        if authorization == None || provisioning == None then
          allowUnverified && |checkpoint| == 144 && UNIVERSAL_MAGIC + binding <= checkpoint
        else checkpoint == UNIVERSAL_MAGIC + binding + sha(authorization.value) + sha(provisioning.value)
      else checkpoint == []
  }

  /** The quarantine inspector: a universal record that binds the backup and the size, but not the content, of stage 2. */
  function Inconsistent(sha: Hasher, backup: Bytes, checkpoint: Bytes, stage2: Bytes): bool {
    && |backup| == STOCK_BACKUP_SIZE
    && |checkpoint| == 144 && UNIVERSAL_MAGIC <= checkpoint
    && FromBe32(checkpoint[8..12]) == |backup| && checkpoint[16..48] == sha(backup)
    && FromBe32(checkpoint[12..16]) == |stage2|
    && checkpoint[48..80] != sha(stage2)
  }

  /** The two record forms have fixed sizes and different magics, so neither is ever read as the other. */
  lemma RecordForms(sha: Hasher, backup: Bytes, kernel: Bytes, system: Bytes, provisioning: Bytes)
    requires IsSha256(sha) && |backup| < 0x1_0000_0000 && |kernel| + |system| < 0x1_0000_0000
    ensures var r := Record(sha, backup, kernel, system, provisioning);
            if provisioning == [] then |r| == 80 && MAGIC <= r && !(UNIVERSAL_MAGIC <= r)
            else |r| == 144 && UNIVERSAL_MAGIC <= r && !(MAGIC <= r)
  {
    var r := Record(sha, backup, kernel, system, provisioning);
    assert r[7] == if provisioning == [] then 0x31 else 0x32;
  }

  lemma FixedFields(magic: Bytes, m: Bytes, n: Bytes, x: Bytes, y: Bytes, rest: Bytes)
    requires |magic| == 8 && |m| == |n| == 4 && |x| == |y| == 32
    ensures var r := magic + (m + n + x + y) + rest;
            |r| >= 80 && r[8..12] == m && r[12..16] == n && r[16..48] == x && r[48..80] == y
  {
  }

  /** What the inspector reads at its fixed offsets is what the installer put in. */
  lemma RecordFields(sha: Hasher, backup: Bytes, kernel: Bytes, system: Bytes, provisioning: Bytes)
    requires IsSha256(sha) && |backup| < 0x1_0000_0000 && |kernel| + |system| < 0x1_0000_0000
    ensures var r := Record(sha, backup, kernel, system, provisioning);
            && |r| >= 80
            && FromBe32(r[8..12]) == |backup| && r[16..48] == sha(backup)
            && FromBe32(r[12..16]) == |kernel| + |system| && r[48..80] == sha(kernel + system)
  {
    Be32RoundTrip(|backup|);
    Be32RoundTrip(|kernel| + |system|);
    hide Be32, FromBe32, ModeledAuthorization;
    var stage2 := kernel + system;
    var r := Record(sha, backup, kernel, system, provisioning);
    if provisioning == [] {
      FixedFields(MAGIC, Be32(|backup|), Be32(|stage2|), sha(backup), sha(stage2), []);
      assert r == MAGIC + Binding(sha, backup, stage2) + [];
    } else {
      var rest := sha(ModeledAuthorization(sha, provisioning)) + sha(provisioning);
      FixedFields(UNIVERSAL_MAGIC, Be32(|backup|), Be32(|stage2|), sha(backup), sha(stage2), rest);
      assert r == UNIVERSAL_MAGIC + Binding(sha, backup, stage2) + rest;
    }
  }

  /**
   * With this camera's authorization and provisioning at hand, the card tools accept the two records the
   * installer can write for the same backup and images, and nothing else but an empty checkpoint file.
   */
  lemma AcceptsExactlyTheRecords(sha: Hasher, backup: Bytes, checkpoint: Bytes, kernel: Bytes, system: Bytes,
                                 provisioning: Bytes, allowUnverified: bool)
    requires IsSha256(sha) && |backup| == STOCK_BACKUP_SIZE && |kernel| + |system| < 0x1_0000_0000 && provisioning != []
    ensures Accepts(sha, backup, checkpoint, kernel + system, Some(ModeledAuthorization(sha, provisioning)),
                    Some(provisioning), allowUnverified) <==>
            checkpoint in {[], Record(sha, backup, kernel, system, []), Record(sha, backup, kernel, system, provisioning)}
  {
    RecordForms(sha, backup, kernel, system, []);
    RecordForms(sha, backup, kernel, system, provisioning);
    assert MAGIC[7] != UNIVERSAL_MAGIC[7];
  }

  /** Without both of them a universal record passes only as an unverified prefix, and only when asked to. */
  lemma AcceptsWithoutBindings(sha: Hasher, backup: Bytes, checkpoint: Bytes, kernel: Bytes, system: Bytes,
                               authorization: Option<Bytes>, provisioning: Option<Bytes>, allowUnverified: bool)
    requires authorization.None? || provisioning.None?
    requires IsSha256(sha) && |backup| == STOCK_BACKUP_SIZE && |kernel| + |system| < 0x1_0000_0000
    ensures Accepts(sha, backup, checkpoint, kernel + system, authorization, provisioning, allowUnverified) <==>
            || checkpoint in {[], Record(sha, backup, kernel, system, [])}
            || (allowUnverified &&
                (exists tail :: |tail| == 64 && checkpoint == UNIVERSAL_MAGIC + Binding(sha, backup, kernel + system) + tail))
  {
    RecordForms(sha, backup, kernel, system, []);
    assert MAGIC[7] != UNIVERSAL_MAGIC[7];
    var prefix := UNIVERSAL_MAGIC + Binding(sha, backup, kernel + system);
    if |checkpoint| == 144 && prefix <= checkpoint {
      assert checkpoint == prefix + checkpoint[80..];
    }
  }

  /**
   * Quarantine applies to the record of a backup and images exactly if it is a universal one, the backup beside it has
   * its size and digest, and stage 2 was replaced by another file of equal size.
   */
  lemma QuarantineExactly(sha: Hasher, saved: Bytes, kernel: Bytes, system: Bytes, provisioning: Bytes, backup: Bytes,
                          stage2: Bytes)
    requires IsSha256(sha) && |saved| < 0x1_0000_0000 && |kernel| + |system| < 0x1_0000_0000
    ensures Inconsistent(sha, backup, Record(sha, saved, kernel, system, provisioning), stage2) <==>
              && |backup| == 0x7C0000 == |saved| && sha(backup) == sha(saved) && provisioning != []
              && |stage2| == |kernel| + |system| && sha(stage2) != sha(kernel + system)
  {
    RecordForms(sha, saved, kernel, system, provisioning);
    RecordFields(sha, saved, kernel, system, provisioning);
  }

  /** The two magics as text; they differ in the last digit. */
  lemma MagicsAsText()
    ensures |MAGIC| == |UNIVERSAL_MAGIC| == 8 && MAGIC[..7] == UNIVERSAL_MAGIC[..7]
    ensures MAGIC[7] == '1' as bv8 && UNIVERSAL_MAGIC[7] == '2' as bv8
    ensures && MAGIC[0] == 'D' as bv8 && MAGIC[1] == 'C' as bv8 && MAGIC[2] == 'S' as bv8 && MAGIC[3] == '6' as bv8
            && MAGIC[4] == 'R' as bv8 && MAGIC[5] == 'C' as bv8 && MAGIC[6] == '0' as bv8
  {
  }
}
