/** The ULM parser (ulm_parse.c): one pass with counters over the raw line, a backward scan for the
    field names, and NULs written over the delimiters so that indices become C strings. */
module UlmParse {
  import opened CText
  import opened UlmLine

  datatype ParseResult =
    | PARSE_OK
    | PARSE_ERROR
    | OVERFLOW  // more delimiters than the fixed index arrays hold

  datatype Lookup = NULL | Text(text: string) | OutOfBounds

  // The two counters that the scanner keeps instead of a quoting state
  predicate Counts(q: Quote, qmCnt: int, bsCnt: int) {
    match q
    case Outside => qmCnt == 0 && bsCnt == 0
    case Inside => qmCnt == 1 && bsCnt == 0
    case Escaped => qmCnt == 1 && bsCnt == 1
  }

  /** The raw line while it is scanned: unquoted line feeds before `n` are replaced. */
  ghost predicate ScannedTo(raw: seq<char>, raw0: seq<char>, s: string, n: nat) {
    && |raw| == |raw0| && s <= raw0 && n <= |s|
    && forall i {:trigger raw[i]} :: 0 <= i < |raw| ==> raw[i] == if i < n && LineFeedAt(s, i) then NUL else raw0[i]
  }

  /** The raw line after a successful parse: every delimiter is replaced. */
  ghost predicate Peppered(raw: seq<char>, raw0: seq<char>, s: string) {
    && |raw| == |raw0| && s <= raw0
    && forall i {:trigger raw[i]} :: 0 <= i < |raw| ==> raw[i] == if i < |s| && CutAt(s, i) then NUL else raw0[i]
  }

  // All that the first pass may have done to a character
  ghost predicate SameButLineFeeds(raw: seq<char>, s: string) {
    |s| <= |raw| && forall i :: 0 <= i < |s| ==> raw[i] == s[i] || (s[i] == LF && raw[i] == NUL)
  }

  // What the first pass has established when it stands at position `i`
  ghost predicate ScanState(raw: seq<char>, raw0: seq<char>, s: string, i: nat, eqs: seq<nat>, sps: seq<nat>,
                            qmCnt: int, bsCnt: int) {
    && ScannedTo(raw, raw0, s, i) && LegalUpTo(s, i)
    && eqs == Equals(s, i) && sps == Blanks(s, i)
    && Counts(QuoteAt(s, i), qmCnt, bsCnt)
    && (QuoteAt(s, i) == Escaped ==> i > 0 && s[i - 1] == ULM_BS)
  }

  // An index array after position `i`
  function Recorded(indices: seq<nat>, i: nat, delimiter: bool): seq<nat> {
    if delimiter then indices + [i] else indices
  }

  lemma ScannedOneMore(raw: seq<char>, raw0: seq<char>, s: string, i: nat)
    requires i < |s| && ScannedTo(raw, raw0, s, i)
    ensures ScannedTo(if LineFeedAt(s, i) then raw[i := NUL] else raw, raw0, s, i + 1)
  {
  }

  lemma LegalOneMore(s: string, i: nat)
    requires i < |s| && LegalUpTo(s, i) && LegalAt(s, i)
    ensures LegalUpTo(s, i + 1)
  {
  }

  lemma {:induction false} Scanned(raw: seq<char>, raw0: seq<char>, s: string, i: nat, eqs: seq<nat>, sps: seq<nat>,
                qmCnt: int, bsCnt: int, qmCnt': int, bsCnt': int)
    requires i < |s| && ScanState(raw, raw0, s, i, eqs, sps, qmCnt, bsCnt) && LegalAt(s, i)
    requires Counts(After(QuoteAt(s, i), s[i]), qmCnt', bsCnt')
    ensures ScanState(if LineFeedAt(s, i) then raw[i := NUL] else raw, raw0, s, i + 1,
                      Recorded(eqs, i, EqualsAt(s, i)), Recorded(sps, i, BlankAt(s, i)), qmCnt', bsCnt')
  {
    ScannedOneMore(raw, raw0, s, i);
    LegalOneMore(s, i);
    assert QuoteAt(s, i + 1) == After(QuoteAt(s, i), s[i]);
  }

  ghost predicate TooManyFields(s: string) {
    |Equals(s, |s|)| > ULM_FIELDS_MAX || |Blanks(s, |s|)| > ULM_FIELDS_MAX
  }

  lemma DelimitersGrow(s: string, n: nat, m: nat)
    requires n <= m <= |s|
    ensures |Equals(s, n)| <= |Equals(s, m)| && |Blanks(s, n)| <= |Blanks(s, m)|
  {
  }

  lemma {:induction false} PepperedBy(raw1: seq<char>, raw: seq<char>, raw0: seq<char>, s: string)
    requires ScannedTo(raw1, raw0, s, |s|) && |raw| == |raw1|
    requires forall j :: 0 <= j < |raw| ==>
               raw[j] == if j in Blanks(s, |s|) || j in Equals(s, |s|) then NUL else raw1[j]
    ensures Peppered(raw, raw0, s)
  {
    EqualsExact(s);
  }

  /** The C string behind an index of a parsed line ends at the next delimiter of the line. */
  lemma {:induction false} CStringAt(raw: seq<char>, raw0: seq<char>, s: string, from: nat)
    requires Peppered(raw, raw0, s) && s == CStr(raw0) && |s| < |raw0| && from <= |s|
    ensures CStr(raw[from..]) == s[from..NextCut(s, from)]
  {
    var e := NextCut(s, from);
    IndexOfIs(raw[from..], NUL, e - from);
    assert raw[from..][..e - from] == s[from..e];
  }

  class ULMFields {
    var raw: array?<char>
    var names: array<nat>
    var vals: array<nat>
    var num: nat

    ghost predicate Valid()
      reads this, raw
    {
      raw != null ==> NUL in raw[..]
    }

    /** ULMNewParseTable: leading blanks are dropped. */
    constructor (logline: string)
      requires NUL !in logline
      ensures Valid() && fresh(raw) && num == 0
      ensures raw != null && CStr(raw[..]) == DropBlanks(logline)
    {
      var ln := DropBlanks(logline);
      var r := new char[|ln| + 1](i requires 0 <= i <= |ln| => if i < |ln| then ln[i] else NUL);
      raw := r;
      names, vals, num := new nat[0], new nat[0], 0;
      new;
      assert raw[|ln|] == NUL;
      assert raw[..|ln|] == ln;
      assert CStr(raw[..]) == ln by {
        assert forall i :: 0 <= i < |ln| ==> raw[..][i] == ln[i] != NUL;
        IndexOfIs(raw[..], NUL, |ln|);
      }
    }

    /** One character of the first pass of ULMProcessParseTable. */
    method ScanChar(i: nat, iArrayEQ: array<nat>, eqCnt: nat, iArraySP: array<nat>, spCnt: nat, qmCnt: int, bsCnt: int,
                    ghost s: string, ghost raw0: seq<char>)
      returns (r: ParseResult, eqCnt': nat, spCnt': nat, qmCnt': int, bsCnt': int)
      requires raw != null && s == CStr(raw0) && i < |s| < raw.Length
      requires iArrayEQ.Length == iArraySP.Length == ULM_FIELDS_MAX && iArrayEQ != iArraySP
      requires eqCnt <= ULM_FIELDS_MAX && spCnt <= ULM_FIELDS_MAX
      requires ScanState(raw[..], raw0, s, i, iArrayEQ[..eqCnt], iArraySP[..spCnt], qmCnt, bsCnt)
      modifies raw, iArrayEQ, iArraySP
      ensures eqCnt' <= ULM_FIELDS_MAX && spCnt' <= ULM_FIELDS_MAX
      ensures r == PARSE_OK ==>
                && LegalAt(s, i)
                && raw[..] == (if LineFeedAt(s, i) then old(raw[..])[i := NUL] else old(raw[..]))
                && iArrayEQ[..eqCnt'] == Recorded(old(iArrayEQ[..eqCnt]), i, EqualsAt(s, i))
                && iArraySP[..spCnt'] == Recorded(old(iArraySP[..spCnt]), i, BlankAt(s, i))
                && Counts(After(QuoteAt(s, i), s[i]), qmCnt', bsCnt')
      ensures r == PARSE_ERROR ==> !LegalAt(s, i)
      ensures r == OVERFLOW ==>
                || (eqCnt == ULM_FIELDS_MAX && EqualsAt(s, i))
                || (spCnt == ULM_FIELDS_MAX && BlankAt(s, i))
    {
      r, eqCnt', spCnt', qmCnt', bsCnt' := PARSE_OK, eqCnt, spCnt, qmCnt, bsCnt;
      var c := raw[i];
      assert c == s[i] && raw[i + 1] == CharAt(s, i + 1);
      if IsBlank(c) {
        if qmCnt == 0 {
          if spCnt == ULM_FIELDS_MAX {
            r := OVERFLOW;
            return;
          }
          iArraySP[spCnt] := i;
          spCnt' := spCnt + 1;
        } else if raw[i - 1] == ULM_BS {
          bsCnt' := 0;
        }
      } else if c == ULM_EQ {
        if i == 0 {
          r := PARSE_ERROR;
          return;
        }
        if qmCnt == 0 {
          if IsBlank(raw[i - 1]) || !IsAlphaExt(raw[i - 1]) {
            r := PARSE_ERROR;
            return;
          }
          if IsBlank(raw[i + 1]) || (!IsAlphaExt(raw[i - 1]) && raw[i + 1] != ULM_QM) {
            r := PARSE_ERROR;
            return;
          }
          if eqCnt == ULM_FIELDS_MAX {
            r := OVERFLOW;
            return;
          }
          iArrayEQ[eqCnt] := i;
          eqCnt' := eqCnt + 1;
        } else if raw[i - 1] == ULM_BS {
          bsCnt' := 0;
        }
      } else if c == LF {
        if qmCnt == 0 {
          raw[i] := NUL;
        } else if raw[i - 1] == ULM_BS {
          bsCnt' := 0;
        }
      } else if c == ULM_BS {
        if qmCnt != 0 {
          if raw[i - 1] == ULM_BS {
            bsCnt' := if bsCnt == 1 then 0 else 1;
          } else {
            bsCnt' := 1;
          }
        } else {
          r := PARSE_ERROR;
          return;
        }
      } else if c == ULM_QM {
        if qmCnt == 0 {
          qmCnt' := qmCnt + 1;
        } else {
          if bsCnt == 0 {
            qmCnt' := qmCnt - 1;
          }
          if raw[i - 1] == ULM_BS {
            bsCnt' := 0;
          }
        }
        if qmCnt' == 0 && !IsSpace(raw[i + 1]) && raw[i + 1] != NUL {
          r := PARSE_ERROR;
          return;
        }
      } else {
        if i > 0 && raw[i - 1] == ULM_BS {
          bsCnt' := 0;
        }
      }
    }

    /** The first pass of ULMProcessParseTable. */
    method Scan(size: nat, ghost s: string, ghost raw0: seq<char>)
      returns (r: ParseResult, eqs: seq<nat>, sps: seq<nat>)
      requires raw != null && raw[..] == raw0 && s == CStr(raw0) && size == |s| < raw.Length && s != ""
      modifies raw
      ensures r == PARSE_OK ==>
                && LegalUpTo(s, size) && QuoteAt(s, size) == Outside
                && eqs == Equals(s, size) && sps == Blanks(s, size) && eqs != []
                && ScannedTo(raw[..], raw0, s, size)
      ensures r == PARSE_OK ==> !TooManyFields(s)
      ensures r == PARSE_ERROR ==> !Legal(s)
      ensures r == OVERFLOW ==> TooManyFields(s)
    {
      var iArrayEQ, iArraySP := new nat[ULM_FIELDS_MAX], new nat[ULM_FIELDS_MAX];
      var eqCnt: nat, spCnt: nat, qmCnt, bsCnt := 0, 0, 0, 0;
      var i := 0;
      while i < size
        invariant i <= size && eqCnt <= ULM_FIELDS_MAX && spCnt <= ULM_FIELDS_MAX
        invariant ScanState(raw[..], raw0, s, i, iArrayEQ[..eqCnt], iArraySP[..spCnt], qmCnt, bsCnt)
      {
        ghost var raw1, eqs1, sps1, qm, bs := raw[..], iArrayEQ[..eqCnt], iArraySP[..spCnt], qmCnt, bsCnt;
        r, eqCnt, spCnt, qmCnt, bsCnt := ScanChar(i, iArrayEQ, eqCnt, iArraySP, spCnt, qmCnt, bsCnt, s, raw0);
        if r != PARSE_OK {
          DelimitersGrow(s, i + 1, size);
          return r, [], [];
        }
        Scanned(raw1, raw0, s, i, eqs1, sps1, qm, bs, qmCnt, bsCnt);
        i := i + 1;
      }
      if eqCnt == 0 || raw[0] == ULM_EQ || qmCnt != 0 || bsCnt != 0 {
        assert raw[0] == ULM_EQ ==> !LegalAt(s, 0);
        return PARSE_ERROR, [], [];
      }
      return PARSE_OK, iArrayEQ[..eqCnt], iArraySP[..spCnt];
    }

    /** The name in front of the '=' at `eq` is searched backwards; `before` is some earlier '='. */
    method FindName(eq: nat, ghost before: nat, ghost s: string) returns (start: nat, named: bool)
      requires raw != null && SameButLineFeeds(raw[..], s)
      requires before < eq < |s| && s[before] == ULM_EQ
      ensures start == NameStart(s, eq) && (named <==> NamedAt(s, eq))
    {
      var j := 1;
      while IsAlphaExt(raw[eq - j])
        invariant 1 <= j <= eq - before
        invariant forall l :: eq - j < l < eq ==> IsAlphaExt(s[l])
        decreases eq - j
      {
        assert raw[..][eq - j] == s[eq - j];
        j := j + 1;
      }
      assert raw[..][eq - j] == s[eq - j] || s[eq - j] == LF;
      NameStartIs(s, eq, eq - j + 1);
      start, named := eq - j + 1, IsBlank(raw[eq - j]);
    }

    /** The second pass: names and values get their indices. */
    method FindNames(eqs: seq<nat>, ghost s: string) returns (ok: bool)
      requires raw != null && SameButLineFeeds(raw[..], s) && eqs != []
      requires forall k :: 0 <= k < |eqs| ==> eqs[0] <= eqs[k] < |s|
      requires forall k :: 1 <= k < |eqs| ==> eqs[0] < eqs[k]
      requires s[eqs[0]] == ULM_EQ
      modifies `names, `vals
      ensures ok <==> forall k :: 1 <= k < |eqs| ==> NamedAt(s, eqs[k])
      ensures ok ==>
                && names.Length == vals.Length == |eqs|
                && names[0] == 0 && (forall k :: 1 <= k < |eqs| ==> names[k] == NameStart(s, eqs[k]))
                && forall k :: 0 <= k < |eqs| ==> vals[k] == eqs[k] + 1
    {
      var n, v := new nat[|eqs|], new nat[|eqs|];
      names, vals := n, v;
      n[0], v[0] := 0, eqs[0] + 1;
      for i := 1 to |eqs|
        invariant names == n && vals == v && n[0] == 0
        invariant forall k :: 1 <= k < i ==> NamedAt(s, eqs[k]) && n[k] == NameStart(s, eqs[k])
        invariant forall k :: 0 <= k < i ==> v[k] == eqs[k] + 1
      {
        var start, named := FindName(eqs[i], eqs[0], s);
        if !named {
          return false;
        }
        n[i], v[i] := start, eqs[i] + 1;
      }
      return true;
    }

    /** NULs over the recorded delimiters of one kind. */
    method Overwrite(indices: seq<nat>)
      requires raw != null && forall k :: 0 <= k < |indices| ==> indices[k] < raw.Length
      modifies raw
      ensures forall j :: 0 <= j < raw.Length ==> raw[j] == if j in indices then NUL else old(raw[j])
    {
      for i := 0 to |indices|
        invariant forall j :: 0 <= j < raw.Length ==> raw[j] == if j in indices[..i] then NUL else old(raw[j])
      {
        raw[indices[i]] := NUL;
        assert indices[..i + 1] == indices[..i] + [indices[i]];
      }
      assert indices[..|indices|] == indices;
    }

    /** The last pass: NULs over all recorded delimiters. */
    method Pepper(eqs: seq<nat>, sps: seq<nat>, ghost s: string, ghost raw0: seq<char>)
      requires raw != null && ScannedTo(raw[..], raw0, s, |s|)
      requires eqs == Equals(s, |s|) && sps == Blanks(s, |s|)
      modifies raw
      ensures Peppered(raw[..], raw0, s)
    {
      ghost var raw1 := raw[..];
      Overwrite(eqs);
      Overwrite(sps);
      PepperedBy(raw1, raw[..], raw0, s);
    }

    /** edg_wll_ULMProcessParseTable. */
    method ProcessParseTable() returns (r: ParseResult)
      requires Valid()
      modifies this, raw
      ensures raw == old(raw)
      ensures r == PARSE_OK ==> raw != null && Legal(CStr(old(raw[..]))) && Parsed(CStr(old(raw[..])), old(raw[..]))
      ensures r == PARSE_OK ==> !TooManyFields(CStr(old(raw[..])))
      ensures r == PARSE_ERROR ==> raw != null ==> !Legal(CStr(old(raw[..])))
      ensures r == OVERFLOW ==> raw != null && TooManyFields(CStr(old(raw[..])))
    {
      if raw == null || raw[0] == NUL {
        return PARSE_ERROR;
      }
      num := 0;
      r := ParseLine(IndexOf(raw[..], NUL), CStr(raw[..]), raw[..]);
    }

    method ParseLine(size: nat, ghost s: string, ghost raw0: seq<char>) returns (r: ParseResult)
      requires raw != null && raw[..] == raw0 && s == CStr(raw0) && size == |s| < raw.Length && s != ""
      modifies this, raw
      ensures raw == old(raw)
      ensures r == PARSE_OK ==> Legal(s) && Parsed(s, raw0) && !TooManyFields(s)
      ensures r == PARSE_ERROR ==> !Legal(s)
      ensures r == OVERFLOW ==> TooManyFields(s)
    {
      var eqs, sps;
      r, eqs, sps := Scan(size, s, raw0);
      if r != PARSE_OK {
        return;
      }
      EqualsSound(s, size, 0);
      forall k | 1 <= k < |eqs|
        ensures eqs[0] < eqs[k]
      {
        EqualsSorted(s, size, 0, k);
      }
      var ok := FindNames(eqs, s);
      if !ok {
        r := PARSE_ERROR;
        return;
      }
      Pepper(eqs, sps, s, raw0);
      num := |eqs|;
    }

    /** edg_wll_ULMGetNameAt. The guard lets the index one behind the last field through. */
    method GetNameAt(index: int, ghost s: string, ghost raw0: seq<char>) returns (r: Lookup)
      requires s == CStr(raw0) && |s| < |raw0| && Parsed(s, raw0)
      ensures r == if index < 0 || index > num then NULL
                   else if index == num then OutOfBounds
                   else Text(FieldAt(s, index).name)
    {
      if index < 0 || index > num {
        return NULL;
      }
      if index == num {
        return OutOfBounds;
      }
      CStringAt(raw[..], raw0, s, names[index]);
      return Text(CStr(raw[names[index]..]));
    }

    /** edg_wll_ULMGetValueAt. */
    method GetValueAt(index: int, ghost s: string, ghost raw0: seq<char>) returns (r: Lookup)
      requires s == CStr(raw0) && |s| < |raw0| && Parsed(s, raw0)
      ensures r == if index < 0 || index > num then NULL
                   else if index == num then OutOfBounds
                   else Text(FieldAt(s, index).value)
    {
      if index < 0 || index > num {
        return NULL;
      }
      if index == num {
        return OutOfBounds;
      }
      CStringAt(raw[..], raw0, s, vals[index]);
      return Text(CStr(raw[vals[index]..]));
    }

    /** The outcome of a successful parse of line `s`. */
    ghost predicate Parsed(s: string, raw0: seq<char>)
      reads this, raw, names, vals
    {
      && raw != null && Peppered(raw[..], raw0, s)
      && num == |Equals(s, |s|)| && names.Length == num && vals.Length == num
      && forall k :: 0 <= k < num ==> names[k] == NameIndex(s, k) && vals[k] == ValueIndex(s, k)
    }
  }

  /** Only blanks and tabs are dropped, and all of them. */
  lemma {:induction false} DroppedAre(pad: string, s: string)
    requires (forall i :: 0 <= i < |pad| ==> pad[i] == ' ' || pad[i] == '\t')
    requires s == "" || (s[0] != ' ' && s[0] != '\t')
    ensures DropBlanks(pad + s) == s
  {
    if pad == "" {
      assert pad + s == s;
    } else {
      assert (pad + s)[1..] == pad[1..] + s;
      DroppedAre(pad[1..], s);
    }
  }

  function DropBlanks(s: string): (r: string)
    ensures forall c :: c in r ==> c in s
  {
    if s != "" && IsBlank(s[0]) then DropBlanks(s[1..]) else s
  }
}
