/** Sequence codes of a logging context (context.c): one counter per event source, printed with every
    event, set from a printed code, and advanced after every logged event. */
module SeqCode {
  import opened CText
  import opened SeqText

  const SOURCE_LAST := 20
  const LB_SERVER := 9

  const NORMAL := 1
  const PBS := 2
  const CONDOR := 3
  const CREAM := 4
  const DUPLICATE := 11

  const CONDOR_SIZE := 68
  type Counters = c: seq<Counter> | |c| == SOURCE_LAST witness seq(SOURCE_LAST, _ => 0)

  function NormalFields(): (f: seq<Field>)
    ensures |f| == 9
  {
    [Field("UI=", 6), Field(":NS=", 10), Field(":WM=", 6), Field(":BH=", 10), Field(":JSS=", 6),
     Field(":LM=", 6), Field(":LRMS=", 6), Field(":APP=", 6), Field(":LBS=", 6)]
  }

  function PbsFields(): (f: seq<Field>)
    ensures |f| == 5
  {
    [Field("CLIENT=", 6), Field(":SERVER=", 10), Field(":SCHED=", 6), Field(":SMOM=", 6), Field(":MOM=", 6)]
  }

  /** The type of code decides the fields, if it has any. */
  function Fields(seqType: int): seq<Field> {
    if seqType in {NORMAL, DUPLICATE, CREAM} then NormalFields()
    else if seqType == PBS then PbsFields()
    else []
  }

  /** The sources whose counters the fields show. */
  function Sources(seqType: int): (r: seq<nat>)
    ensures |r| == |Fields(seqType)| && forall i :: 0 <= i < |r| ==> 0 < r[i] < SOURCE_LAST
    ensures forall i, j :: 0 <= i < j < |r| ==> r[i] != r[j]
  {
    if seqType in {NORMAL, DUPLICATE, CREAM} then [1, 2, 3, 4, 5, 6, 7, 8, 9]
    else if seqType == PBS then [12, 13, 16, 14, 15]
    else []
  }

  lemma {:induction false} FieldsProper(seqType: int, i: nat)
    requires i < |Fields(seqType)|
    ensures ProperField(Fields(seqType)[i])
  {
    if seqType == PBS {
      assert |PbsFields()| == 5;
    } else {
      assert |NormalFields()| == 9;
    }
  }

  lemma {:induction false} PartsProper(seqType: int, k: nat)
    requires k <= |Fields(seqType)|
    ensures Proper(Fields(seqType)[..k]) && Proper(Fields(seqType)[k..])
  {
    var f := Fields(seqType);
    forall i | 0 <= i < |f| ensures ProperField(f[i]) {
      FieldsProper(seqType, i);
    }
    ProperAll(f[..k]);
    ProperAll(f[k..]);
  }

  /** The counters that are shown, in the order of the fields. */
  function Shown(c: Counters, sources: seq<nat>): (v: seq<Counter>)
    requires forall i :: 0 <= i < |sources| ==> sources[i] < SOURCE_LAST
    ensures |v| == |sources| && forall i :: 0 <= i < |v| ==> v[i] == c[sources[i]]
  {
    seq(|sources|, i requires 0 <= i < |sources| => c[sources[i]])
  }

  /** edg_wll_GetSequenceCode; None stands for EINVAL. */
  function Code(seqType: int, c: Counters, condor: string): Option<string> {
    if Fields(seqType) != [] then Some(Print(Fields(seqType), Shown(c, Sources(seqType))))
    else if seqType == CONDOR then Some(condor)
    else None
  }

  // The counters after sscanf assigned to the first sources
  function Stored(c: Counters, sources: seq<nat>, v: seq<Counter>): Counters
    requires |v| <= |sources| && forall i :: 0 <= i < |sources| ==> sources[i] < SOURCE_LAST
  {
    if v == [] then c
    else var n := |v| - 1; Stored(c, sources, v[..n])[sources[n] := v[n]]
  }

  function Zeros(): (c: Counters)
    ensures forall i :: 0 <= i < SOURCE_LAST ==> c[i] == 0
  {
    seq(SOURCE_LAST, _ => 0)
  }

  predicate SourceGiven(source: int) {
    0 < source < SOURCE_LAST
  }

  /** How many numbers a code of this type must have; one less is the old form of the nine-field
      code, from before the server had a counter. */
  predicate Complete(seqType: int, n: nat) {
    n == |Fields(seqType)| || (|Fields(seqType)| == 9 && n == 8)
  }

  /** The counters that the numbers of a code stand for. */
  function Taken(seqType: int, c: Counters, v: seq<Counter>): Counters
    requires |v| <= |Fields(seqType)|
  {
    var c' := Stored(c, Sources(seqType), v);
    if |Fields(seqType)| == 9 && |v| == 8 then c'[LB_SERVER := 0] else c'
  }

  class Context {
    var seqType: int
    const c: array<Counter>
    var condor: string
    var source: int

    ghost predicate Valid() reads this {
      c.Length == SOURCE_LAST
    }

    ghost function Counts(): Counters
      requires Valid()
      reads this, c
    {
      c[..]
    }

    constructor (source: int)
      ensures Valid() && fresh(c) && seqType == 0 && this.source == source
      ensures Counts() == Zeros()
    {
      c := new Counter[SOURCE_LAST](_ => 0);
      seqType, condor, this.source := 0, "", source;
    }

    /** edg_wll_GetSequenceCode: the code tells the counters of the type's sources. */
    method GetSequenceCode() returns (code: Option<string>)
      requires Valid()
      ensures code == Code(seqType, Counts(), condor)
      ensures code.None? <==> Fields(seqType) == [] && seqType != CONDOR
      ensures Fields(seqType) != [] ==> Scanned(Fields(seqType), code.value) == Shown(Counts(), Sources(seqType))
    {
      match seqType {
        case 4 | 11 | 1 => code := Some(Print(NormalFields(), Shown(c[..], Sources(seqType))));
        case 2 => code := Some(Print(PbsFields(), Shown(c[..], Sources(seqType))));
        case 3 => code := Some(condor);
        case _ => code := None;
      }
      if Fields(seqType) != [] {
        WholeCodeScanned(seqType, c[..]);
      }
    }

    /** sscanf into the counters: the numbers before the first mismatch are stored. */
    method ScanCounters(code: string) returns (res: nat)
      requires Valid()
      modifies c
      ensures var v := Scanned(Fields(seqType), code);
        res == |v| && Counts() == Stored(old(Counts()), Sources(seqType), v)
    {
      var v, sources := Scanned(Fields(seqType), code), Sources(seqType);
      res := 0;
      while res < |v|
        invariant res <= |v| && c[..] == Stored(old(c[..]), sources, v[..res])
      {
        assert v[..res + 1][..res] == v[..res];
        c[sources[res]] := v[res];
        res := res + 1;
      }
      assert v[..res] == v;
    }

    /** edg_wll_SetSequenceCode; `now` is the time of the call. The counters scanned before a
        mismatch stay stored, and the type is set even when it is not a known one. */
    method SetSequenceCode(code: Option<string>, newType: int, now: Counter) returns (err: int)
      requires Valid()
      modifies this, c
      ensures Valid() && seqType == newType && source == old(source)
      ensures err == SetError(newType, source, code)
      ensures Counts() == AfterSet(newType, source, old(Counts()), code, now)
      ensures condor == if newType != CONDOR then old(condor)
                        else if code.Some? then CStr(code.value)[..Min(|CStr(code.value)|, 68)] else ""
    {
      seqType := newType;
      if Fields(newType) == [] {
        if newType == CONDOR {
          var s := if code.Some? then CStr(code.value) else "";
          condor := s[..Min(|s|, CONDOR_SIZE)];
          return 0;
        }
        return EINVAL;
      }
      if code.None? {
        forall i | 0 <= i < SOURCE_LAST {
          c[i] := 0;
        }
        assert c[..] == Zeros();
        return 0;
      }
      err := TakeCode(code.value, now);
    }

    // Reading a given code
    method ReadCode(code: string) returns (ok: bool)
      requires Valid() && Fields(seqType) != []
      modifies c
      ensures var v := Scanned(Fields(seqType), code);
        ok == Complete(seqType, |v|) && Counts() == Taken(seqType, old(Counts()), v)
    {
      var res := ScanCounters(code);
      if seqType != PBS && res == LB_SERVER - 1 {
        c[LB_SERVER] := 0;
        return true;
      }
      return res == |Fields(seqType)|;
    }

    // Reading a given code, and the time for a duplicate
    method TakeCode(code: string, now: Counter) returns (err: int)
      requires Valid() && Fields(seqType) != []
      modifies c
      ensures err == SetError(seqType, source, Some(code))
      ensures Counts() == AfterSet(seqType, source, old(Counts()), Some(code), now)
    {
      var ok := ReadCode(code);
      err := MarkDuplicate(ok, now);
    }

    method MarkDuplicate(complete: bool, now: Counter) returns (err: int)
      requires Valid()
      modifies c
      ensures err == CodeError(seqType, source, complete)
      ensures Counts() == Marked(seqType, source, old(Counts()), complete, now)
    {
      if !complete {
        return if seqType == CREAM then 0 else EINVAL;
      }
      if seqType == DUPLICATE {
        if !SourceGiven(source) {
          return EINVAL;
        }
        c[source] := now;
      }
      return 0;
    }

    /** edg_wll_IncSequenceCode. */
    method IncSequenceCode() returns (err: int)
      requires Valid()
      modifies c
      ensures err == if Fields(seqType) != [] && !SourceGiven(source) then EINVAL else 0
      ensures Counts() == if Fields(seqType) == [] || err != 0 then old(Counts())
                          else Advanced(old(Counts()), source, 1)
    {
      if Fields(seqType) != [] {
        if !SourceGiven(source) {
          return EINVAL;
        }
        c[source] := (c[source] + 1) % UINT;
      }
      return 0;
    }
  }

  /** The result of edg_wll_SetSequenceCode. */
  function SetError(seqType: int, source: int, code: Option<string>): int {
    if Fields(seqType) == [] then if seqType == CONDOR then 0 else EINVAL
    else if code.None? then 0
    else CodeError(seqType, source, Complete(seqType, |Scanned(Fields(seqType), code.value)|))
  }

  // The result for a given code, complete or not
  function CodeError(seqType: int, source: int, complete: bool): int {
    if !complete then if seqType == CREAM then 0 else EINVAL
    else if seqType == DUPLICATE && !SourceGiven(source) then EINVAL
    else 0
  }

  /** The counters after edg_wll_SetSequenceCode: a duplicate marks its own source with the time. */
  function AfterSet(seqType: int, source: int, c: Counters, code: Option<string>, now: Counter): Counters {
    if Fields(seqType) == [] then c
    else if code.None? then Zeros()
    else
      var v := Scanned(Fields(seqType), code.value);
      Marked(seqType, source, Taken(seqType, c, v), Complete(seqType, |v|), now)
  }

  function Marked(seqType: int, source: int, c: Counters, complete: bool, now: Counter): Counters {
    if complete && Restamped(seqType, source) then c[source := now] else c
  }

  predicate Restamped(seqType: int, source: int) {
    seqType == DUPLICATE && SourceGiven(source)
  }

  /** The counters `n` events later. */
  function Advanced(c: Counters, source: nat, n: nat): Counters
    requires source < SOURCE_LAST
  {
    c[source := (c[source] + n) % UINT]
  }

  /** When setting from a code fails: a job's code with fewer than eight numbers, a batch system's with
      fewer than five, a duplicate without a source, or an unknown type. Codes of type CREAM are taken
      as far as they go. */
  lemma {:induction false} SetFailsIff(seqType: int, source: int, code: string)
    ensures SetError(CREAM, source, Some(code)) == 0 && SetError(CONDOR, source, Some(code)) == 0
    ensures SetError(NORMAL, source, Some(code)) == (if |Scanned(NormalFields(), code)| < 8 then 22 else 0)
    ensures SetError(PBS, source, Some(code)) == (if |Scanned(PbsFields(), code)| < 5 then 22 else 0)
    ensures SetError(DUPLICATE, source, Some(code))
         == (if |Scanned(NormalFields(), code)| < 8 || source <= 0 || source >= 20 then 22 else 0)
    ensures seqType !in {NORMAL, CREAM, DUPLICATE, PBS, CONDOR} ==> SetError(seqType, source, Some(code)) == 22
  {
  }

  // ---------- Setting from a printed code ----------

  lemma {:induction false} StoredAt(c: Counters, sources: seq<nat>, v: seq<Counter>, s: nat)
    requires |v| <= |sources| && (forall i :: 0 <= i < |sources| ==> sources[i] < SOURCE_LAST) && s < SOURCE_LAST
    requires forall i, j :: 0 <= i < j < |sources| ==> sources[i] != sources[j]
    ensures forall i :: 0 <= i < |v| && sources[i] == s ==> Stored(c, sources, v)[s] == v[i]
    ensures s !in sources[..|v|] ==> Stored(c, sources, v)[s] == c[s]
  {
    if v != [] {
      var n := |v| - 1;
      StoredAt(c, sources, v[..n], s);
      assert sources[..n + 1] == sources[..n] + [sources[n]];
    }
  }

  // Storing for distinct sources: the numbers are shown there, and nothing else changes
  lemma {:induction false} StoredShows(d: Counters, r: seq<nat>, v: seq<Counter>)
    requires |v| == |r| && (forall i :: 0 <= i < |r| ==> r[i] < SOURCE_LAST)
    requires forall i, j :: 0 <= i < j < |r| ==> r[i] != r[j]
    ensures Shown(Stored(d, r, v), r) == v
    ensures forall s :: 0 <= s < SOURCE_LAST && s !in r ==> Stored(d, r, v)[s] == d[s]
  {
    assert r[..|v|] == r;
    forall i | 0 <= i < |r| ensures Stored(d, r, v)[r[i]] == v[i] {
      StoredAt(d, r, v, r[i]);
    }
    forall s | 0 <= s < SOURCE_LAST && s !in r ensures Stored(d, r, v)[s] == d[s] {
      StoredAt(d, r, v, s);
    }
  }

  /** Scanning a printed code, or the front part of one, gives the counters shown in it. */
  lemma {:induction false} CodeScanned(seqType: int, c: Counters, k: nat)
    requires k <= |Fields(seqType)|
    ensures var f, v := Fields(seqType), Shown(c, Sources(seqType));
      Scanned(f, Print(f[..k], v[..k])) == v[..k]
  {
    var f := Fields(seqType);
    PartsProper(seqType, k);
    assert f[..k] + f[k..] == f;
    ScanBack(f[..k], f[k..], Shown(c, Sources(seqType))[..k]);
  }

  lemma {:induction false} WholeCodeScanned(seqType: int, c: Counters)
    requires Fields(seqType) != []
    ensures Scanned(Fields(seqType), Code(seqType, c, "").value) == Shown(c, Sources(seqType))
  {
    var f, v := Fields(seqType), Shown(c, Sources(seqType));
    assert f[..|f|] == f && v[..|f|] == v;
    CodeScanned(seqType, c, |f|);
  }

  /** The counters after setting from a printed code. */
  lemma {:induction false} SetFromCode(seqType: int, source: int, c: Counters, d: Counters, now: Counter)
    requires Fields(seqType) != []
    ensures var d' := Stored(d, Sources(seqType), Shown(c, Sources(seqType)));
      AfterSet(seqType, source, d, Code(seqType, c, ""), now)
      == if Restamped(seqType, source) then d'[source := now] else d'
  {
    WholeCodeScanned(seqType, c);
    SetFromNumbers(seqType, source, d, Code(seqType, c, "").value, now);
  }

  // A code with all its numbers
  lemma {:induction false} SetFromNumbers(seqType: int, source: int, d: Counters, code: string, now: Counter)
    requires Fields(seqType) != [] && |Scanned(Fields(seqType), code)| == |Fields(seqType)|
    ensures var d' := Stored(d, Sources(seqType), Scanned(Fields(seqType), code));
      AfterSet(seqType, source, d, Some(code), now) == if Restamped(seqType, source) then d'[source := now] else d'
  {
  }

  /** A context that is set from another's code prints that code, exactly unless it is a duplicate
      that marks a shown source of its own with a different time. It keeps its own counters for all
      other sources. */
  lemma {:induction false} CodeTransfers(seqType: int, source: int, c: Counters, d: Counters, now: Counter)
    ensures var d' := AfterSet(seqType, source, d, Code(seqType, c, ""), now);
      && (Code(seqType, d', "") == Code(seqType, c, "")
          <==> !Restamped(seqType, source) || source !in Sources(seqType) || c[source] == now)
      && forall s :: 0 <= s < SOURCE_LAST && s !in Sources(seqType) && !(Restamped(seqType, source) && s == source) ==>
           d'[s] == d[s]
  {
    if Fields(seqType) != [] {
      var r := Sources(seqType);
      SetFromCode(seqType, source, c, d, now);
      StoredShows(d, r, Shown(c, r));
      var e := Stored(d, r, Shown(c, r));
      if Restamped(seqType, source) {
        MarkedShows(c, e, r, source, now);
        SameCodeIff(seqType, e[source := now], c);
      }
    }
  }

  // Marking one source of counters that show the same as `c`
  lemma {:induction false} MarkedShows(c: Counters, e: Counters, r: seq<nat>, source: nat, now: Counter)
    requires forall i :: 0 <= i < |r| ==> r[i] < SOURCE_LAST
    requires Shown(e, r) == Shown(c, r) && source < SOURCE_LAST
    ensures Shown(e[source := now], r) == Shown(c, r) <==> source !in r || c[source] == now
  {
    var x, y := Shown(e[source := now], r), Shown(c, r);
    forall i | 0 <= i < |r| ensures x[i] == if r[i] == source then now else y[i] {
      assert Shown(e, r)[i] == y[i];
    }
    if source in r {
      var i :| 0 <= i < |r| && r[i] == source;
      assert x[i] == now && y[i] == c[source];
    }
  }

  // Codes are equal exactly when the shown counters are
  lemma {:induction false} SameCodeIff(seqType: int, c: Counters, d: Counters)
    requires Fields(seqType) != []
    ensures Code(seqType, c, "") == Code(seqType, d, "") <==> Shown(c, Sources(seqType)) == Shown(d, Sources(seqType))
  {
    WholeCodeScanned(seqType, c);
    WholeCodeScanned(seqType, d);
  }

  /** Set from its own code, a context keeps all its counters, exactly unless it is a duplicate that
      marks its source with a different time. */
  lemma {:induction false} OwnCodeKeeps(seqType: int, source: int, c: Counters, now: Counter)
    ensures AfterSet(seqType, source, c, Code(seqType, c, ""), now) == c
            <==> !Restamped(seqType, source) || c[source] == now
  {
    if Fields(seqType) != [] {
      SetFromCode(seqType, source, c, c, now);
      StoredOwn(c, Sources(seqType));
    }
  }

  /** The failing side: a duplicate context of source 1 whose counter is 5, set at time 7. */
  lemma {:induction false} DuplicateIsMarked(c: Counters)
    requires c[1] == 5
    ensures var c' := AfterSet(DUPLICATE, 1, c, Code(DUPLICATE, c, ""), 7);
      c'[1] == 7 && c' != c && SetError(DUPLICATE, 1, Code(DUPLICATE, c, "")) == 0
  {
    SetFromCode(DUPLICATE, 1, c, c, 7);
    WholeCodeScanned(DUPLICATE, c);
  }

  /** edg_wll_GetSequenceCode and then edg_wll_SetSequenceCode on the same context. */
  method SetFromOwnCode(ctx: Context, now: Counter) returns (err: int)
    requires ctx.Valid()
    modifies ctx, ctx.c
    ensures ctx.Valid() && ctx.seqType == old(ctx.seqType) && ctx.source == old(ctx.source)
    ensures ctx.Counts() == old(ctx.Counts()) <==>
              ctx.seqType != DUPLICATE || !SourceGiven(ctx.source) || old(ctx.Counts())[ctx.source] == now
    ensures Fields(ctx.seqType) != [] ==> (err == 0 <==> ctx.seqType != DUPLICATE || SourceGiven(ctx.source))
  {
    OwnCodeKeeps(ctx.seqType, ctx.source, ctx.Counts(), now);
    var code := ctx.GetSequenceCode();
    err := ctx.SetSequenceCode(code, ctx.seqType, now);
  }

  lemma {:induction false} StoredOwn(c: Counters, r: seq<nat>)
    requires forall i :: 0 <= i < |r| ==> r[i] < SOURCE_LAST
    requires forall i, j :: 0 <= i < j < |r| ==> r[i] != r[j]
    ensures Stored(c, r, Shown(c, r)) == c
  {
    var v := Shown(c, r);
    StoredShows(c, r, v);
    forall s | 0 <= s < SOURCE_LAST ensures Stored(c, r, v)[s] == c[s] {
      if s in r {
        var i :| 0 <= i < |r| && r[i] == s;
        assert Shown(Stored(c, r, v), r)[i] == v[i];
      }
    }
  }

  /** A code in the old form, without the server's counter, is read as nine fields with LBS=0, by
      every type that has nine fields; a duplicate then marks its source as always. */
  lemma {:induction false} OldCodeReads(seqType: int, source: int, c: Counters, d: Counters, now: Counter)
    requires seqType in {NORMAL, CREAM, DUPLICATE}
    ensures var code, c0 := Some(OldCode(c)), c[LB_SERVER := 0];
      && SetError(seqType, source, code) == (if seqType == DUPLICATE && !SourceGiven(source) then EINVAL else 0)
      && Code(seqType, AfterSet(seqType, source, d, code, now), "")
         == Code(seqType, Marked(seqType, source, c0, true, now), "")
  {
    var e := Stored(d, Sources(seqType), OldNumbers(c))[LB_SERVER := 0];
    OldAfterSet(seqType, source, c, d, now);
    OldMarked(seqType, source, c, d, now);
    SameCodeIff(seqType, Marked(seqType, source, e, true, now), Marked(seqType, source, c[LB_SERVER := 0], true, now));
  }

  lemma {:induction false} OldMarked(seqType: int, source: int, c: Counters, d: Counters, now: Counter)
    requires seqType in {NORMAL, CREAM, DUPLICATE}
    ensures var r := Sources(seqType);
      var e, c0 := Stored(d, r, OldNumbers(c))[LB_SERVER := 0], c[LB_SERVER := 0];
      Shown(Marked(seqType, source, e, true, now), r) == Shown(Marked(seqType, source, c0, true, now), r)
  {
    var r := Sources(seqType);
    OldShows(c, d, r, Shown(c, r));
    if Restamped(seqType, source) {
      BothMarked(Stored(d, r, OldNumbers(c))[LB_SERVER := 0], c[LB_SERVER := 0], r, source, now);
    }
  }

  // The counters after setting from an old code
  lemma {:induction false} OldAfterSet(seqType: int, source: int, c: Counters, d: Counters, now: Counter)
    requires seqType in {NORMAL, CREAM, DUPLICATE}
    ensures var code, e := Some(OldCode(c)), Stored(d, Sources(seqType), OldNumbers(c))[LB_SERVER := 0];
      && SetError(seqType, source, code) == CodeError(seqType, source, true)
      && AfterSet(seqType, source, d, code, now) == Marked(seqType, source, e, true, now)
  {
    OldScanned(c);
  }

  lemma {:induction false} BothMarked(c: Counters, d: Counters, r: seq<nat>, source: nat, now: Counter)
    requires forall i :: 0 <= i < |r| ==> r[i] < SOURCE_LAST
    requires Shown(c, r) == Shown(d, r) && source < SOURCE_LAST
    ensures Shown(c[source := now], r) == Shown(d[source := now], r)
  {
    forall i | 0 <= i < |r| ensures c[source := now][r[i]] == d[source := now][r[i]] {
      assert Shown(c, r)[i] == Shown(d, r)[i];
    }
  }

  lemma {:induction false} OldScanned(c: Counters)
    ensures Scanned(NormalFields(), OldCode(c)) == OldNumbers(c)
  {
    CodeScanned(NORMAL, c, 8);
  }

  function OldNumbers(c: Counters): (v: seq<Counter>)
    ensures |v| == 8
  {
    Shown(c, Sources(NORMAL))[..8]
  }

  /** The code with the first eight fields only. */
  function OldCode(c: Counters): string {
    Print(NormalFields()[..8], OldNumbers(c))
  }

  // Eight numbers stored and the ninth counter cleared
  lemma {:induction false} OldShows(c: Counters, d: Counters, r: seq<nat>, v: seq<Counter>)
    requires |r| == 9 && r[8] == LB_SERVER && (forall i :: 0 <= i < 9 ==> r[i] < SOURCE_LAST)
    requires forall i, j :: 0 <= i < j < 9 ==> r[i] != r[j]
    requires v == Shown(c, r)
    ensures Shown(Stored(d, r, v[..8])[LB_SERVER := 0], r) == Shown(c[LB_SERVER := 0], r)
  {
    forall i | 0 <= i < 9
      ensures Stored(d, r, v[..8])[LB_SERVER := 0][r[i]] == c[LB_SERVER := 0][r[i]]
    {
      StoredAt(d, r, v[..8], r[i]);
    }
  }

  // ---------- Which counter stands behind which label ----------

  /** The code of a job, spelled out: counters by the numbers of their sources. */
  function NormalText(c: Counters): string {
    "UI=" + (Padded(c[1], 6) + (":NS=" + (Padded(c[2], 10) + (":WM=" + (Padded(c[3], 6)
    + (":BH=" + (Padded(c[4], 10) + SubmissionText(c))))))))
  }

  // From the job submission service on
  function SubmissionText(c: Counters): string {
    ":JSS=" + (Padded(c[5], 6) + (":LM=" + (Padded(c[6], 6) + (":LRMS=" + (Padded(c[7], 6)
    + (":APP=" + (Padded(c[8], 6) + (":LBS=" + (Padded(c[9], 6) + "")))))))))
  }

  /** The code of a batch system; its scheduler's counter comes third. */
  function PbsText(c: Counters): string {
    "CLIENT=" + (Padded(c[12], 6) + (":SERVER=" + (Padded(c[13], 10) + (":SCHED=" + (Padded(c[16], 6)
    + (":SMOM=" + (Padded(c[14], 6) + (":MOM=" + (Padded(c[15], 6) + "")))))))))
  }

  /** The printed code is that text. */
  lemma {:induction false} CodeIsText(seqType: int, c: Counters)
    ensures seqType in {NORMAL, CREAM, DUPLICATE} ==> Code(seqType, c, "") == Some(NormalText(c))
    ensures seqType == PBS ==> Code(seqType, c, "") == Some(PbsText(c))
  {
    if seqType in {NORMAL, CREAM, DUPLICATE} {
      NormalPrinted(seqType, c);
    } else if seqType == PBS {
      PbsPrinted(c);
    }
  }

  lemma {:induction false} NormalPrinted(seqType: int, c: Counters)
    requires seqType in {NORMAL, CREAM, DUPLICATE}
    ensures Print(Fields(seqType), Shown(c, Sources(seqType))) == NormalText(c)
  {
    FrontPrinted(seqType, c);
    FromStart(NormalFields(), Shown(c, Sources(seqType)));
  }

  lemma {:induction false} FromStart(f: seq<Field>, v: seq<Counter>)
    requires |v| == |f|
    ensures Print(f[0..], v[0..]) == Print(f, v)
  {
    assert f[0..] == f && v[0..] == v;
  }

  lemma {:induction false} FrontPrinted(seqType: int, c: Counters)
    requires seqType in {NORMAL, CREAM, DUPLICATE}
    ensures Print(NormalFields()[0..], Shown(c, Sources(seqType))[0..]) == NormalText(c)
  {
    var f, v := NormalFields(), Shown(c, Sources(seqType));
    SubmissionPrinted(seqType, c);
    FourPrinted(f, v);
    assert v[0] == c[1] && v[1] == c[2] && v[2] == c[3] && v[3] == c[4];
  }

  lemma {:induction false} FourPrinted(f: seq<Field>, v: seq<Counter>)
    requires |v| == |f| >= 4
    ensures Print(f[0..], v[0..])
         == f[0].tag + (Padded(v[0], f[0].width) + (f[1].tag + (Padded(v[1], f[1].width)
            + (f[2].tag + (Padded(v[2], f[2].width) + (f[3].tag + (Padded(v[3], f[3].width)
            + Print(f[4..], v[4..]))))))))
  {
    PrintFrom(f, v, 3);
    PrintFrom(f, v, 2);
    PrintFrom(f, v, 1);
    PrintFrom(f, v, 0);
  }

  lemma {:induction false} SubmissionPrinted(seqType: int, c: Counters)
    requires seqType in {NORMAL, CREAM, DUPLICATE}
    ensures Print(NormalFields()[4..], Shown(c, Sources(seqType))[4..]) == SubmissionText(c)
  {
    var f, v := NormalFields(), Shown(c, Sources(seqType));
    PrintFrom(f, v, 9);
    PrintFrom(f, v, 8);
    PrintFrom(f, v, 7);
    PrintFrom(f, v, 6);
    PrintFrom(f, v, 5);
    PrintFrom(f, v, 4);
  }

  lemma {:induction false} PbsPrinted(c: Counters)
    ensures Print(Fields(PBS), Shown(c, Sources(PBS))) == PbsText(c)
  {
    var f, v := PbsFields(), Shown(c, Sources(PBS));
    assert f[0..] == f && v[0..] == v;
    PrintFrom(f, v, 0);
    PrintFrom(f, v, 1);
    PrintFrom(f, v, 2);
    PrintFrom(f, v, 3);
    PrintFrom(f, v, 4);
    PrintFrom(f, v, 5);
  }

  /** One more event of a source changes exactly the number behind that source's label. */
  lemma {:induction false} EventChangesOneNumber(c: Counters, source: nat)
    requires SourceGiven(source)
    ensures var c' := Logged(NORMAL, source, c, 1);
      && c'[source] == (c[source] + 1) % UINT && (forall s :: 0 <= s < SOURCE_LAST && s != source ==> c'[s] == c[s])
      && Code(NORMAL, c', "") == Some(NormalText(c'))
  {
    CodeIsText(NORMAL, Logged(NORMAL, source, c, 1));
  }

  /** A code that another component printed is stored source by source. */
  lemma {:induction false} TextIsStored(c: Counters, d: Counters, source: int, now: Counter)
    ensures SetError(NORMAL, source, Some(NormalText(c))) == 0
    ensures StoredFrom(c, d, AfterSet(NORMAL, source, d, Some(NormalText(c)), now))
  {
    CodeIsText(NORMAL, c);
    CodeIsStored(c, d, source, now);
  }

  /** The nine counters of the code come from c, and all others are still those of d. */
  ghost predicate StoredFrom(c: Counters, d: Counters, d': Counters) {
    forall s :: 0 <= s < SOURCE_LAST ==> d'[s] == if 1 <= s <= 9 then c[s] else d[s]
  }

  lemma {:induction false} CodeIsStored(c: Counters, d: Counters, source: int, now: Counter)
    ensures SetError(NORMAL, source, Code(NORMAL, c, "")) == 0
    ensures StoredFrom(c, d, AfterSet(NORMAL, source, d, Code(NORMAL, c, ""), now))
  {
    WholeCodeScanned(NORMAL, c);
    SetFromCode(NORMAL, source, c, d, now);
    ShownIsStored(c, d);
  }

  lemma {:induction false} ShownIsStored(c: Counters, d: Counters)
    ensures StoredFrom(c, d, Stored(d, Sources(NORMAL), Shown(c, Sources(NORMAL))))
  {
    var r := Sources(NORMAL);
    StoredShows(d, r, Shown(c, r));
    var d' := Stored(d, r, Shown(c, r));
    assert forall i :: 0 <= i < 9 ==> r[i] == i + 1;
    forall s | 1 <= s <= 9 ensures d'[s] == c[s] {
      assert Shown(d', r)[s - 1] == Shown(c, r)[s - 1];
    }
  }

  // ---------- Logging events ----------

  lemma {:induction false} TupleLessAt(a: seq<Counter>, b: seq<Counter>, k: nat)
    requires k < |a| == |b| && a[..k] == b[..k] && a[k] < b[k]
    ensures TupleLess(a, b)
  {
    if k > 0 {
      assert a[0] == a[..k][0] == b[..k][0] == b[0];
      assert a[1..][..k - 1] == a[..k][1..] == b[..k][1..] == b[1..][..k - 1];
      TupleLessAt(a[1..], b[1..], k - 1);
    }
  }

  /** All counters shown `n` events later fit their widths and none has wrapped. */
  ghost predicate Room(seqType: int, c: Counters, source: nat, n: nat)
    requires source < SOURCE_LAST
  {
    c[source] + n < UINT && Fits(Fields(seqType), Shown(Advanced(c, source, n), Sources(seqType)))
  }

  lemma {:induction false} LessRoom(seqType: int, c: Counters, source: nat, m: nat, n: nat)
    requires source < SOURCE_LAST && m <= n && Room(seqType, c, source, n)
    ensures Room(seqType, c, source, m)
  {
    var f, r := Fields(seqType), Sources(seqType);
    var a, b := Shown(Advanced(c, source, m), r), Shown(Advanced(c, source, n), r);
    forall i | 0 <= i < |f| ensures FitsWidth(a[i], f[i].width) {
      assert FitsWidth(b[i], f[i].width) && a[i] <= b[i];
    }
  }

  // The shown counters after m and after n events
  lemma {:induction false} TuplesIncrease(c: Counters, r: seq<nat>, source: nat, m: nat, n: nat)
    requires forall i :: 0 <= i < |r| ==> r[i] < SOURCE_LAST
    requires forall i, j :: 0 <= i < j < |r| ==> r[i] != r[j]
    requires source in r && m < n && c[source] + n < UINT
    ensures TupleLess(Shown(Advanced(c, source, m), r), Shown(Advanced(c, source, n), r))
  {
    var a, b := Shown(Advanced(c, source, m), r), Shown(Advanced(c, source, n), r);
    var k :| 0 <= k < |r| && r[k] == source;
    forall i | 0 <= i < k ensures a[i] == b[i] {
      assert r[i] != r[k];
    }
    assert a[..k] == b[..k] && a[k] < b[k];
    TupleLessAt(a, b, k);
  }

  /** A later event of a source that the code shows has a greater code, as tuple and as string. */
  lemma {:induction false} CodesIncrease(seqType: int, c: Counters, source: nat, condor: string, m: nat, n: nat)
    requires source in Sources(seqType) && m < n && Room(seqType, c, source, n)
    ensures TupleLess(Shown(Advanced(c, source, m), Sources(seqType)), Shown(Advanced(c, source, n), Sources(seqType)))
    ensures Less(NthCode(seqType, source, c, condor, m).value, NthCode(seqType, source, c, condor, n).value)
  {
    TuplesIncrease(c, Sources(seqType), source, m, n);
    LessRoom(seqType, c, source, m, n);
    WholeProper(seqType);
    StringOrderIsTupleOrder(Fields(seqType), Shown(Advanced(c, source, m), Sources(seqType)),
                            Shown(Advanced(c, source, n), Sources(seqType)));
  }

  /** The counters after `n` logged events; without counters or without a source they stay. */
  function Logged(seqType: int, source: int, c: Counters, n: nat): Counters {
    if Fields(seqType) != [] && SourceGiven(source) then Advanced(c, source, n) else c
  }

  lemma {:induction false} LoggedOneMore(seqType: int, source: int, c: Counters, n: nat)
    ensures Logged(seqType, source, c, 0) == c
    ensures Logged(seqType, source, Logged(seqType, source, c, n), 1) == Logged(seqType, source, c, n + 1)
  {
    if SourceGiven(source) {
      OneMore(c, source, n);
    }
  }

  /** The sequence-code steps of edg_wll_LogEventMasterVa: the event takes the current code, and the
      counter advances whatever became of the event. */
  method LogEvent(ctx: Context) returns (code: Option<string>)
    requires ctx.Valid()
    modifies ctx.c
    ensures code == Code(ctx.seqType, old(ctx.Counts()), ctx.condor)
    ensures ctx.Counts() == Logged(ctx.seqType, ctx.source, old(ctx.Counts()), 1)
  {
    code := ctx.GetSequenceCode();
    var err := ctx.IncSequenceCode();
  }

  /** The code of the event that follows `n` others. */
  function NthCode(seqType: int, source: int, c: Counters, condor: string, n: nat): Option<string> {
    Code(seqType, Logged(seqType, source, c, n), condor)
  }

  /** A run of events. */
  method LogEvents(ctx: Context, n: nat) returns (codes: seq<Option<string>>)
    requires ctx.Valid()
    modifies ctx.c
    ensures |codes| == n && ctx.Counts() == Logged(ctx.seqType, ctx.source, old(ctx.Counts()), n)
    ensures forall i :: 0 <= i < n ==> codes[i] == NthCode(ctx.seqType, ctx.source, old(ctx.Counts()), ctx.condor, i)
  {
    ghost var start: Counters := ctx.Counts();
    codes := [];
    LoggedOneMore(ctx.seqType, ctx.source, start, 0);
    while |codes| < n
      invariant |codes| <= n && ctx.Counts() == Logged(ctx.seqType, ctx.source, start, |codes|)
      invariant forall i :: 0 <= i < |codes| ==> codes[i] == NthCode(ctx.seqType, ctx.source, start, ctx.condor, i)
    {
      var code := LogNext(ctx, start, |codes|);
      codes := codes + [code];
    }
  }

  // The event that follows `k` others
  method LogNext(ctx: Context, ghost start: Counters, ghost k: nat) returns (code: Option<string>)
    requires ctx.Valid() && ctx.Counts() == Logged(ctx.seqType, ctx.source, start, k)
    modifies ctx.c
    ensures code == NthCode(ctx.seqType, ctx.source, start, ctx.condor, k)
    ensures ctx.Counts() == Logged(ctx.seqType, ctx.source, start, k + 1)
  {
    LoggedOneMore(ctx.seqType, ctx.source, start, k);
    code := LogEvent(ctx);
  }

  lemma {:induction false} OneMore(c: Counters, source: nat, n: nat)
    requires source < SOURCE_LAST
    ensures Advanced(c, source, 0) == c
    ensures Advanced(Advanced(c, source, n), source, 1) == Advanced(c, source, n + 1)
  {
    var x := c[source] + n;
    assert (x % UINT + 1) % UINT == (x + 1) % UINT;
  }

  /** For every counter: one more event makes the printed code greater as a string exactly when the
      counter neither gains a digit beyond its width nor is, or becomes, a negative int (save where a
      negative one loses a digit beyond its width, or becomes zero). */
  lemma {:induction false} NextCodeGreater(seqType: int, c: Counters, k: nat)
    requires k < |Fields(seqType)|
    ensures var s, w := Sources(seqType)[k], Fields(seqType)[k].width;
      && w > 0
      && (Less(Code(seqType, c, "").value, Code(seqType, Advanced(c, s, 1), "").value) <==> PrintGrows(c[s], w))
  {
    WholeProper(seqType);
    NextPrint(Fields(seqType), Sources(seqType), c, k);
  }

  lemma {:induction false} NextPrint(f: seq<Field>, r: seq<nat>, c: Counters, k: nat)
    requires Proper(f) && |r| == |f| && (forall i :: 0 <= i < |r| ==> r[i] < SOURCE_LAST)
    requires forall i, j :: 0 <= i < j < |r| ==> r[i] != r[j]
    requires k < |r|
    ensures f[k].width > 0
    ensures Less(Print(f, Shown(c, r)), Print(f, Shown(Advanced(c, r[k], 1), r))) <==> PrintGrows(c[r[k]], f[k].width)
  {
    ShownAdvanced(c, r, k);
    CodeStep(f, Shown(c, r), Shown(Advanced(c, r[k], 1), r), k);
  }

  lemma {:induction false} WholeProper(seqType: int)
    ensures Proper(Fields(seqType))
  {
    var f := Fields(seqType);
    PartsProper(seqType, |f|);
    assert f[..|f|] == f;
  }

  lemma {:induction false} ShownAdvanced(c: Counters, r: seq<nat>, k: nat)
    requires forall i :: 0 <= i < |r| ==> r[i] < SOURCE_LAST
    requires forall i, j :: 0 <= i < j < |r| ==> r[i] != r[j]
    requires k < |r|
    ensures var a, b := Shown(c, r), Shown(Advanced(c, r[k], 1), r);
      b[k] == Next(a[k]) && a[..k] == b[..k] && a[k + 1..] == b[k + 1..]
  {
    var a, b := Shown(c, r), Shown(Advanced(c, r[k], 1), r);
    assert forall i :: 0 <= i < k ==> r[i] != r[k];
    assert forall i :: k < i < |r| ==> r[i] != r[k];
    assert a[..k] == b[..k] && a[k + 1..] == b[k + 1..];
  }
}
