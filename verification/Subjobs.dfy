/** Subjob identifiers (edg_wll_GenerateSubjobIds in context.c): hashes of the parent's unique part,
    a seed and an index. */
module Subjobs {
  import opened CText
  import opened StrMd5
  import opened CJobId

  const DEFAULT_SEED: string := "edg_wll_GenerateSubjobIds()"

  function SeedText(seed: Option<CString>): CString {
    if seed.Some? then seed.value else DEFAULT_SEED
  }

  /** What is hashed. */
  function HashInput(unique: CString, seed: CString, index: nat): CString {
    unique + "," + seed + "," + Decimal(index)
  }

  /** One subjob: the hash as unique part, on the parent's server. */
  function Subjob(md5: string -> Digest, parent: JobId, seed: Option<CString>, index: nat): Option<JobId> {
    var hashed := Hashed(md5, HashInput(parent.id, SeedText(seed), index));
    Recreate(parent.host, AsInt(EffectivePort(parent.port)), hashed)
  }

  /** edg_wll_GenerateSubjobIds; None stands for EINVAL. */
  method GenerateSubjobIds(md5: string -> Digest, parent: JobId, n: int, seed: Option<CString>)
    returns (subjobs: Option<seq<JobId>>)
    ensures subjobs.Some? <==> n >= 1 && !(PREFIX <= parent.host)
    ensures subjobs.Some? ==> |subjobs.value| == n
    ensures subjobs.Some? ==> forall i :: 0 <= i < n ==> Subjob(md5, parent, seed, i) == Some(subjobs.value[i])
  {
    if n < 1 {
      return None;
    }
    var jobs: seq<JobId> := [];
    while |jobs| < n
      invariant |jobs| <= n && (|jobs| > 0 ==> !(PREFIX <= parent.host))
      invariant forall i :: 0 <= i < |jobs| ==> Subjob(md5, parent, seed, i) == Some(jobs[i])
    {
      var unhashed := HashInput(parent.id, SeedText(seed), |jobs|);
      var hashed := Str2Md5Base64(md5, unhashed);
      if hashed.None? {
        return None;
      }
      var job := Recreate(parent.host, AsInt(EffectivePort(parent.port)), hashed.value);
      if job.None? {
        return None;
      }
      jobs := jobs + [job.value];
    }
    return Some(jobs);
  }

  /** The unique part of a subjob, spelled out: the hash of the parent's unique part, the seed and the
      index, which counts from 0. */
  lemma {:induction false} SubjobText(md5: string -> Digest, parent: JobId, seed: CString, index: nat)
    requires !(PREFIX <= parent.host)
    ensures Subjob(md5, parent, Some(seed), index).value.id
         == Letters(Sextets(md5(parent.id + "," + seed + "," + Decimal(index))))
    ensures Subjob(md5, parent, None, index).value.id
         == Letters(Sextets(md5(parent.id + "," + "edg_wll_GenerateSubjobIds()" + "," + Decimal(index))))
    ensures Decimal(0) == "0"
  {
  }

  /** The texts hashed for two subjobs agree exactly when the indices and the joined texts of unique
      part and seed do; commas may stand anywhere in them. */
  lemma {:induction false} HashInputsAgree(u: CString, s: CString, i: nat, u': CString, s': CString, i': nat)
    ensures HashInput(u, s, i) == HashInput(u', s', i') <==> i == i' && u + "," + s == u' + "," + s'
  {
    if HashInput(u, s, i) == HashInput(u', s', i') {
      BackDiffers(u + "," + s, Decimal(i), u' + "," + s', Decimal(i'));
      NumberOfDecimal(i);
      NumberOfDecimal(i');
    }
  }

  /** For different parents whose unique parts have no comma, as generated ones have none, the hashed
      text determines parent, seed and index. */
  lemma {:induction false} HashInputsDiffer(u: CString, s: CString, i: nat, u': CString, s': CString, i': nat)
    requires ',' !in u && ',' !in u'
    ensures HashInput(u, s, i) == HashInput(u', s', i') <==> u == u' && s == s' && i == i'
  {
    HashInputsAgree(u, s, i, u', s', i');
    FrontDiffers(u, s, u', s');
  }

  /** With commas it does not: the border between unique part and seed can move. */
  lemma {:induction false} CommasConfuse(u: CString, v: CString, s: CString, i: nat)
    ensures HashInput(u + "," + v, s, i) == HashInput(u, v + "," + s, i)
  {
    Regrouped(u, v, s);
  }

  lemma {:induction false} Regrouped(u: string, s: string, d: string)
    ensures u + "," + s + "," + d == u + "," + (s + "," + d)
  {
  }

  // The first comma
  lemma {:induction false} FrontDiffers(a: string, x: string, b: string, y: string)
    requires ',' !in a && ',' !in b
    ensures a + "," + x == b + "," + y ==> a == b && x == y
  {
    var p, q := a + "," + x, b + "," + y;
    assert p[|a|] == ',' && q[|b|] == ',';
    IndexOfIs(p, ',', |a|);
    IndexOfIs(q, ',', |b|);
    assert a == p[..|a|] && b == q[..|b|] && x == p[|a| + 1..] && y == q[|b| + 1..];
  }

  // The last comma
  lemma {:induction false} BackDiffers(s: string, x: string, t: string, y: string)
    requires AllDigits(x) && AllDigits(y) && s + "," + x == t + "," + y
    ensures s == t && x == y
  {
    var p, q := s + "," + x, t + "," + y;
    assert p[|s|] == ',' && q[|t|] == ',';
    LastIndexIs(p, ',', |s|);
    LastIndexIs(q, ',', |t|);
    assert s == p[..|s|] && t == q[..|t|] && x == p[|s| + 1..] && y == q[|t| + 1..];
  }

  /** Two subjobs of a parent coincide exactly when their hashes collide, and what is hashed differs
      for different indices, whatever the parent's unique part. */
  lemma {:induction false} OnlyCollisionsCoincide(md5: string -> Digest, parent: JobId,
                                                  seed: Option<CString>, i: nat, j: nat)
    requires !(PREFIX <= parent.host)
    ensures var u, s := parent.id, SeedText(seed);
      Subjob(md5, parent, seed, i) == Subjob(md5, parent, seed, j)
      <==> md5(HashInput(u, s, i)) == md5(HashInput(u, s, j))
    ensures HashInput(parent.id, SeedText(seed), i) == HashInput(parent.id, SeedText(seed), j) <==> i == j
  {
    var u, s := parent.id, SeedText(seed);
    if Subjob(md5, parent, seed, i) == Subjob(md5, parent, seed, j) {
      EncodingIsInjective(md5(HashInput(u, s, i)), md5(HashInput(u, s, j)));
    }
    HashInputsAgree(u, s, i, u, s, j);
  }

  /** A subjob stays on its parent's server exactly when the host has no colon. */
  lemma {:induction false} SubjobStays(md5: string -> Digest, parent: JobId, seed: Option<CString>, index: nat)
    ensures var sub := Subjob(md5, parent, seed, index);
      sub.Some? && sub.value.host == parent.host && sub.value.port == EffectivePort(parent.port)
      <==> ':' !in parent.host
  {
    AsIntBack(EffectivePort(parent.port));
    RecreateKeepsServer(parent.host, AsInt(EffectivePort(parent.port)),
                        Hashed(md5, HashInput(parent.id, SeedText(seed), index)));
  }

  /** The unique part of a subjob is 22 letters of the alphabet, and the subjob of a printable
      parent on a host without a colon survives being printed and parsed. */
  lemma {:induction false} SubjobSurvives(md5: string -> Digest, parent: JobId, seed: Option<CString>, index: nat)
    requires ':' !in parent.host && Printable(parent)
    ensures var sub := Subjob(md5, parent, seed, index);
      sub.Some? && |sub.value.id| == 22 && Base64Text(sub.value.id) && Parse(Unparse(sub.value)) == sub
  {
    SubjobStays(md5, parent, seed, index);
    var sub := Subjob(md5, parent, seed, index).value;
    assert Printable(sub);
    SurvivesIff(sub);
  }
}
