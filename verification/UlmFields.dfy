/** What the fields of a legal ULM line look like, and that printing fields and parsing the line
    gives the same fields back. */
module UlmFields {
  import opened CText
  import opened UlmLine

  // ---------- Names and values of a legal line ----------

  lemma {:induction false} NameCharsKeepQuote(s: string, k: nat, e: nat)
    requires k <= e <= |s| && QuoteAt(s, e) == Outside
    requires forall i :: k <= i < e ==> IsAlphaExt(s[i])
    ensures forall i :: k <= i <= e ==> QuoteAt(s, i) == Outside
    decreases e - k
  {
    if k < e {
      NameCharsKeepQuote(s, k, e - 1);
    }
  }

  lemma QuoteBeforeBlank(s: string, b: nat)
    requires b < |s| && IsBlank(s[b]) && QuoteAt(s, b + 1) == Outside
    ensures QuoteAt(s, b) == Outside
  {
  }

  // The run of name characters in front of the '=' at `e`, when another '=' stands at `p`
  lemma {:induction false} RunBefore(s: string, e: nat, p: nat)
    requires p < e < |s| && EqualsAt(s, e) && s[p] == ULM_EQ && LegalAt(s, e) && NamedAt(s, e)
    ensures var n := NameStart(s, e);
            0 < n < e && BlankAt(s, n - 1) && p < n - 1 && NextCut(s, n) == e
  {
    var n := NameStart(s, e);
    NameCharsKeepQuote(s, n, e);
    QuoteBeforeBlank(s, n - 1);
    NameStartsBehind(s, e, p);
    assert s[n - 1] != ULM_EQ;
    assert CutAt(s, e) && forall i :: n <= i < e ==> !CutAt(s, i);
  }

  /** Each name but the first is the longest run of name characters in front of its '='. It is not
      empty and follows an unquoted blank, which lies behind the previous '='. */
  lemma {:induction false} NameIsRun(s: string, k: nat)
    requires Legal(s) && 1 <= k < |Equals(s, |s|)|
    ensures var e, n := Equals(s, |s|)[k], NameIndex(s, k);
            && 0 < n < e && BlankAt(s, n - 1) && Equals(s, |s|)[k - 1] < n - 1
            && FieldAt(s, k).name == s[n..e]
            && forall i :: n <= i < e ==> IsAlphaExt(s[i])
  {
    var e, p := Equals(s, |s|)[k], Equals(s, |s|)[k - 1];
    EqualsSound(s, |s|, k);
    EqualsSound(s, |s|, k - 1);
    EqualsSorted(s, |s|, k - 1, k);
    assert NamedAt(s, e) && LegalAt(s, e);
    RunBefore(s, e, p);
  }

  /** Each value runs from its '=' to the next unquoted white space or the end of the line. */
  lemma {:induction false} ValueEnds(s: string, k: nat)
    requires Legal(s) && k < |Equals(s, |s|)|
    ensures var v := ValueIndex(s, k); var e := NextCut(s, v);
            && FieldAt(s, k).value == s[v..e]
            && (e < |s| ==> BlankAt(s, e) || LineFeedAt(s, e))
            && forall i :: v <= i < e ==> !CutAt(s, i)
  {
    var v := ValueIndex(s, k);
    var e := NextCut(s, v);
    if e < |s| && EqualsAt(s, e) {
      EqualsComplete(s, |s|, e);
      var l :| 0 <= l < |Equals(s, |s|)| && Equals(s, |s|)[l] == e;
      if l < k {
        EqualsSorted(s, |s|, l, k);
      }
      NextName(s, k, l);
      assert CutAt(s, NameIndex(s, l) - 1);
    }
  }

  lemma {:induction false} NextName(s: string, k: nat, l: nat)
    requires Legal(s) && k < l < |Equals(s, |s|)|
    ensures Equals(s, |s|)[k] < NameIndex(s, l) - 1 && BlankAt(s, NameIndex(s, l) - 1)
    ensures NameIndex(s, l) <= Equals(s, |s|)[l]
  {
    NameIsRun(s, l);
    if k < l - 1 {
      EqualsSorted(s, |s|, k, l - 1);
    }
  }

  /** No two fields overlap: a value ends before the next name starts. */
  lemma {:induction false} FieldsApart(s: string, k: nat)
    requires Legal(s) && k + 1 < |Equals(s, |s|)|
    ensures NameIndex(s, k) <= Equals(s, |s|)[k] < ValueIndex(s, k)
    ensures ValueIndex(s, k) <= NextCut(s, ValueIndex(s, k)) < NameIndex(s, k + 1)
  {
    NextName(s, k, k + 1);
    assert CutAt(s, NameIndex(s, k + 1) - 1);
  }

  // ---------- Printing fields and parsing the line ----------

  predicate NameOk(n: string) {
    n != "" && forall i :: 0 <= i < |n| ==> IsAlphaExt(n[i])
  }

  /** A value that can stand in a line: not empty, all quotes closed, no delimiter outside quotes. */
  predicate ValueOk(v: string) {
    && v != "" && NUL !in v
    && QuoteAt(v, |v|) == Outside
    && forall i :: 0 <= i < |v| ==> LegalAt(v, i) && !CutAt(v, i)
  }

  predicate FieldsOk(fs: seq<Field>) {
    forall i :: 0 <= i < |fs| ==> NameOk(fs[i].name) && ValueOk(fs[i].value)
  }

  function Print(f: Field): string {
    f.name + [ULM_EQ] + f.value
  }

  /** Fields printed with single spaces between them. */
  function Line(fs: seq<Field>): string {
    if |fs| == 0 then ""
    else if |fs| == 1 then Print(fs[0])
    else Line(fs[..|fs| - 1]) + " " + Print(fs[|fs| - 1])
  }

  // `x` stands at position `a` of `t`
  ghost predicate StandsAt(t: string, a: nat, x: string) {
    a + |x| <= |t| && forall j :: 0 <= j < |x| ==> t[a + j] == x[j]
  }

  // Quoting in front of a position depends on the text before it only
  lemma {:induction false} QuotePrefix(s: string, t: string, i: nat)
    requires s <= t && i <= |s|
    ensures QuoteAt(t, i) == QuoteAt(s, i)
  {
    if i > 0 {
      QuotePrefix(s, t, i - 1);
    }
  }

  lemma {:induction false} QuoteRestart(t: string, a: nat, x: string, i: nat)
    requires StandsAt(t, a, x) && i <= |x| && QuoteAt(t, a) == Outside
    ensures QuoteAt(t, a + i) == QuoteAt(x, i)
  {
    if i > 0 {
      QuoteRestart(t, a, x, i - 1);
      assert t[a + (i - 1)] == x[i - 1];
    }
  }

  lemma {:induction false} NameOutside(t: string, a: nat, n: string, i: nat)
    requires StandsAt(t, a, n) && NameOk(n) && i <= |n| && QuoteAt(t, a) == Outside
    ensures QuoteAt(t, a + i) == Outside
  {
    if i > 0 {
      NameOutside(t, a, n, i - 1);
      assert t[a + (i - 1)] == n[i - 1];
    }
  }

  lemma {:induction false} EqualsPrefix(s: string, t: string, n: nat)
    requires s <= t && n <= |s|
    ensures Equals(t, n) == Equals(s, n)
  {
    if n > 0 {
      EqualsPrefix(s, t, n - 1);
      QuotePrefix(s, t, n - 1);
    }
  }

  lemma {:induction false} NameStartPrefix(s: string, t: string, e: nat)
    requires s <= t && e <= |s|
    ensures NameStart(t, e) == NameStart(s, e)
  {
    if e > 0 {
      NameStartPrefix(s, t, e - 1);
    }
  }

  // No '=' from position `from` on
  lemma {:induction false} EqualsStop(s: string, from: nat, n: nat)
    requires from <= n <= |s| && forall i :: from <= i < n ==> !CutAt(s, i)
    ensures Equals(s, n) == Equals(s, from)
  {
    if from < n {
      EqualsStop(s, from, n - 1);
      assert !CutAt(s, n - 1);
    }
  }

  lemma {:induction false} BlanksPrefix(s: string, t: string, n: nat)
    requires s <= t && n <= |s|
    ensures Blanks(t, n) == Blanks(s, n)
  {
    if n > 0 {
      BlanksPrefix(s, t, n - 1);
      QuotePrefix(s, t, n - 1);
    }
  }

  lemma {:induction false} BlanksStop(s: string, from: nat, n: nat)
    requires from <= n <= |s| && forall i :: from <= i < n ==> !BlankAt(s, i)
    ensures Blanks(s, n) == Blanks(s, from)
  {
    if from < n {
      BlanksStop(s, from, n - 1);
    }
  }

  lemma {:induction false} CutPrefix(s: string, t: string, i: nat)
    requires s <= t && i < |s|
    ensures CutAt(t, i) == CutAt(s, i)
  {
    QuotePrefix(s, t, i);
  }

  lemma {:induction false} NextCutKept(s: string, t: string, from: nat)
    requires s <= t && from <= |s|
    requires NextCut(s, from) < |s| || (|s| < |t| && CutAt(t, |s|))
    ensures NextCut(t, from) == NextCut(s, from)
    decreases |s| - from
  {
    if from < |s| {
      CutPrefix(s, t, from);
      if !CutAt(s, from) {
        NextCutKept(s, t, from + 1);
      }
    }
  }

  lemma SlicePrefix(s: string, t: string, a: nat, b: nat)
    requires s <= t && a <= b <= |s|
    ensures t[a..b] == s[a..b]
  {
  }

  /** A field keeps its name and value when the line grows behind a delimiter. */
  lemma {:induction false} FieldKept(s: string, t: string, k: nat)
    requires s <= t && k < |Equals(s, |s|)| && Equals(s, |s|) <= Equals(t, |t|)
    requires NextCut(s, NameIndex(s, k)) < |s|
    requires NextCut(s, ValueIndex(s, k)) < |s| || (|s| < |t| && CutAt(t, |s|))
    ensures FieldAt(t, k) == FieldAt(s, k)
  {
    var n, v := NameIndex(s, k), ValueIndex(s, k);
    assert Equals(t, |t|)[k] == Equals(s, |s|)[k];
    NameStartPrefix(s, t, Equals(s, |s|)[k]);
    assert NameIndex(t, k) == n && ValueIndex(t, k) == v;
    NextCutKept(s, t, n);
    NextCutKept(s, t, v);
    SlicePrefix(s, t, n, NextCut(s, n));
    SlicePrefix(s, t, v, NextCut(s, v));
  }

  lemma {:induction false} NameEnds(s: string, k: nat)
    requires k < |Equals(s, |s|)|
    ensures NextCut(s, NameIndex(s, k)) < |s|
  {
    EqualsSound(s, |s|, k);
    assert CutAt(s, Equals(s, |s|)[k]);
  }

  ghost predicate AllNamed(s: string, n: nat) {
    n <= |Equals(s, |s|)| && forall k :: 1 <= k < n ==> NamedAt(s, Equals(s, |s|)[k])
  }

  lemma {:induction false} NameKept(s: string, t: string, e: nat)
    requires s <= t && e <= |s| && NamedAt(s, e)
    ensures NamedAt(t, e)
  {
    NameStartPrefix(s, t, e);
  }

  lemma {:induction false} NamesKept(s: string, t: string)
    requires s <= t && Equals(s, |s|) <= Equals(t, |t|) && AllNamed(s, |Equals(s, |s|)|)
    ensures AllNamed(t, |Equals(s, |s|)|)
  {
    var eqs, eqs' := Equals(s, |s|), Equals(t, |t|);
    forall k | 1 <= k < |eqs|
      ensures NamedAt(t, eqs'[k])
    {
      assert eqs'[k] == eqs[k];
      NameKept(s, t, eqs[k]);
    }
  }

  // A line that is ready for one more field: empty, or ending with the separating blank
  ghost predicate Open(pre: string, fs: seq<Field>) {
    && LegalUpTo(pre, |pre|) && QuoteAt(pre, |pre|) == Outside && NUL !in pre
    && (if fs == [] then pre == "" else pre != "" && IsBlank(pre[|pre| - 1]))
    && HasFields(pre, fs) && AllNamed(pre, |fs|)
    && |Blanks(pre, |pre|)| == |fs|
  }

  // A line that ends with a field
  ghost predicate Closed(s: string, fs: seq<Field>) {
    && fs != [] && s != "" && NUL !in s
    && LegalUpTo(s, |s|) && QuoteAt(s, |s|) == Outside
    && HasFields(s, fs) && AllNamed(s, |fs|)
    && |Blanks(s, |s|)| == |fs| - 1
    && !CutAt(s, |s| - 1)
  }

  // ---------- The separating blank ----------

  // `t` is `s` and one blank
  ghost predicate Spaced(t: string, s: string) {
    s <= t && |t| == |s| + 1 && t[|s|] == ' '
  }

  lemma {:induction false} BlankKeepsFields(s: string, t: string, fs: seq<Field>)
    requires Closed(s, fs) && Spaced(t, s)
    ensures HasFields(t, fs) && AllNamed(t, |fs|)
  {
    QuotePrefix(s, t, |s|);
    EqualsPrefix(s, t, |s|);
    assert BlankAt(t, |s|) && Equals(t, |t|) == Equals(s, |s|);
    forall k | 0 <= k < |fs|
      ensures FieldAt(t, k) == fs[k]
    {
      NameEnds(s, k);
      FieldKept(s, t, k);
    }
    NamesKept(s, t);
  }

  lemma {:induction false} AddBlank(s: string, t: string, fs: seq<Field>)
    requires Closed(s, fs) && Spaced(t, s)
    ensures Open(t, fs)
  {
    BlankKeepsFields(s, t, fs);
    QuotePrefix(s, t, |s|);
    BlanksPrefix(s, t, |s|);
    assert Blanks(t, |t|) == Blanks(s, |s|) + [|s|];
    forall i | 0 <= i < |t|
      ensures LegalAt(t, i)
    {
      if i < |s| {
        assert LegalAt(s, i);
        QuotePrefix(s, t, i);
      }
    }
  }

  // ---------- One more field ----------

  // `t` is `pre` and the printed field, whose '=' stands at `e`
  ghost predicate Grown(t: string, pre: string, f: Field, e: nat) {
    && pre <= t && e == |pre| + |f.name| && |t| == e + 1 + |f.value|
    && StandsAt(t, |pre|, f.name) && t[e] == ULM_EQ && StandsAt(t, e + 1, f.value)
  }

  // What the delimiters are from position `a` on: the '=' at `e` and no other
  ghost predicate OneCut(t: string, a: nat, e: nat) {
    && a < e < |t| && EqualsAt(t, e)
    && (forall i :: a <= i < e ==> IsAlphaExt(t[i]))
    && (forall i :: a <= i < e ==> !CutAt(t, i))
    && (forall i :: e < i < |t| ==> !CutAt(t, i))
  }

  lemma {:induction false} NamePart(t: string, a: nat, n: string)
    requires StandsAt(t, a, n) && NameOk(n) && QuoteAt(t, a) == Outside
    ensures QuoteAt(t, a + |n|) == Outside
    ensures forall i :: a <= i < a + |n| ==> IsAlphaExt(t[i])
    ensures forall i :: a <= i < a + |n| ==> !CutAt(t, i)
    ensures forall i :: a <= i < a + |n| ==> LegalAt(t, i)
  {
    NameOutside(t, a, n, |n|);
    forall i | a <= i < a + |n|
      ensures !CutAt(t, i) && LegalAt(t, i) && IsAlphaExt(t[i])
    {
      NameOutside(t, a, n, i - a);
      assert t[a + (i - a)] == n[i - a];
    }
  }

  lemma {:induction false} ValueChar(t: string, v: nat, value: string, i: nat)
    requires StandsAt(t, v, value) && |t| == v + |value| && QuoteAt(t, v) == Outside && ValueOk(value) && i < |value|
    ensures !CutAt(t, v + i) && LegalAt(t, v + i)
  {
    QuoteRestart(t, v, value, i);
    assert LegalAt(value, i) && !CutAt(value, i);
    assert t[v + i] == value[i];
    assert CharAt(t, v + i + 1) == CharAt(value, i + 1) by {
      assert i + 1 < |value| ==> t[v + (i + 1)] == value[i + 1];
    }
  }

  lemma {:induction false} ValuePart(t: string, v: nat, value: string)
    requires StandsAt(t, v, value) && |t| == v + |value| && QuoteAt(t, v) == Outside && ValueOk(value)
    ensures QuoteAt(t, |t|) == Outside && !IsBlank(t[v])
    ensures forall i :: v <= i < |t| ==> !CutAt(t, i)
    ensures forall i :: v <= i < |t| ==> LegalAt(t, i)
  {
    QuoteRestart(t, v, value, |value|);
    assert t[v + 0] == value[0] && !CutAt(value, 0);
    forall i | v <= i < |t|
      ensures !CutAt(t, i) && LegalAt(t, i)
    {
      ValueChar(t, v, value, i - v);
    }
  }

  /** A printed field is legal and has one delimiter. */
  lemma {:induction false} FieldPart(t: string, pre: string, f: Field, e: nat)
    requires Grown(t, pre, f, e) && NameOk(f.name) && ValueOk(f.value) && QuoteAt(pre, |pre|) == Outside
    ensures OneCut(t, |pre|, e) && QuoteAt(t, |t|) == Outside
    ensures forall i :: |pre| <= i < |t| ==> LegalAt(t, i)
  {
    QuotePrefix(pre, t, |pre|);
    NamePart(t, |pre|, f.name);
    assert QuoteAt(t, e + 1) == Outside;
    ValuePart(t, e + 1, f.value);
    assert IsAlphaExt(t[e - 1]);
  }

  lemma {:induction false} EqualsUpToField(t: string, pre: string, e: nat)
    requires pre <= t && |pre| <= e <= |t| && forall i :: |pre| <= i < e ==> !CutAt(t, i)
    ensures Equals(t, e) == Equals(pre, |pre|)
  {
    EqualsPrefix(pre, t, |pre|);
    EqualsStop(t, |pre|, e);
  }

  lemma EqualsNext(t: string, e: nat)
    requires e < |t| && EqualsAt(t, e)
    ensures Equals(t, e + 1) == Equals(t, e) + [e]
  {
  }

  /** A printed field has no unquoted blank. */
  lemma {:induction false} NoBlank(t: string, pre: string, e: nat)
    requires pre <= t && OneCut(t, |pre|, e)
    ensures Blanks(t, |t|) == Blanks(pre, |pre|)
  {
    BlanksPrefix(pre, t, |pre|);
    forall i | |pre| <= i < |t|
      ensures !BlankAt(t, i)
    {
      assert i != e ==> !CutAt(t, i);
    }
    BlanksStop(t, |pre|, |t|);
  }

  lemma {:induction false} EqualsOfField(t: string, pre: string, e: nat)
    requires pre <= t && OneCut(t, |pre|, e)
    ensures Equals(t, e + 1) == Equals(pre, |pre|) + [e]
  {
    EqualsUpToField(t, pre, e);
    EqualsNext(t, e);
  }

  /** A printed field adds one '=' to the list. */
  lemma {:induction false} OneEquals(t: string, pre: string, e: nat)
    requires pre <= t && OneCut(t, |pre|, e)
    ensures Equals(t, |t|) == Equals(pre, |pre|) + [e]
  {
    EqualsOfField(t, pre, e);
    EqualsStop(t, e + 1, |t|);
  }

  lemma {:induction false} CutsOfField(t: string, a: nat, e: nat)
    requires OneCut(t, a, e)
    ensures NextCut(t, a) == e && NextCut(t, e + 1) == |t|
  {
    assert CutAt(t, e);
  }

  lemma FieldText(s: string, k: nat, n: nat, e: nat, end: nat)
    requires k < |Equals(s, |s|)| && NameIndex(s, k) == n && ValueIndex(s, k) == e + 1
    requires NextCut(s, n) == e && NextCut(s, e + 1) == end
    ensures FieldAt(s, k) == Field(s[n..e], s[e + 1..end])
  {
  }

  // The last field of the grown line is the printed one
  lemma {:induction false} LastField(t: string, pre: string, f: Field, e: nat, n: nat)
    requires Grown(t, pre, f, e) && OneCut(t, |pre|, e) && n < |Equals(t, |t|)| && Equals(t, |t|)[n] == e
    requires if n == 0 then pre == "" else pre != "" && IsBlank(pre[|pre| - 1])
    ensures FieldAt(t, n) == f && (n > 0 ==> NamedAt(t, e))
  {
    NameStartIs(t, e, |pre|);
    CutsOfField(t, |pre|, e);
    FieldText(t, n, |pre|, e, |t|);
    TextAt(t, |pre|, f.name);
    TextAt(t, e + 1, f.value);
  }

  lemma TextAt(t: string, a: nat, x: string)
    requires StandsAt(t, a, x)
    ensures t[a..a + |x|] == x
  {
  }

  // The fields in front of the blank stay as they were
  lemma {:induction false} FieldsInFront(t: string, pre: string, fs: seq<Field>, e: nat)
    requires Open(pre, fs) && pre <= t && OneCut(t, |pre|, e)
    ensures |Equals(t, |t|)| == |fs| + 1 && forall k :: 0 <= k < |fs| ==> FieldAt(t, k) == fs[k]
  {
    OneEquals(t, pre, e);
    if fs != [] {
      QuoteBeforeBlank(pre, |pre| - 1);
      assert CutAt(pre, |pre| - 1);
    }
    forall k | 0 <= k < |fs|
      ensures FieldAt(t, k) == fs[k]
    {
      NameEnds(pre, k);
      EqualsSound(pre, |pre|, k);
      assert NextCut(pre, ValueIndex(pre, k)) < |pre|;
      FieldKept(pre, t, k);
    }
  }

  lemma {:induction false} GrownFields(t: string, pre: string, fs: seq<Field>, f: Field, e: nat)
    requires Open(pre, fs) && Grown(t, pre, f, e) && OneCut(t, |pre|, e)
    ensures HasFields(t, fs + [f])
  {
    FieldsInFront(t, pre, fs, e);
    OneEquals(t, pre, e);
    LastField(t, pre, f, e, |fs|);
  }

  lemma {:induction false} GrownNames(t: string, pre: string, fs: seq<Field>, f: Field, e: nat)
    requires Open(pre, fs) && Grown(t, pre, f, e) && OneCut(t, |pre|, e)
    ensures AllNamed(t, |fs| + 1)
  {
    OneEquals(t, pre, e);
    LastField(t, pre, f, e, |fs|);
    NamesKept(pre, t);
  }

  lemma {:induction false} AddField(t: string, pre: string, fs: seq<Field>, f: Field, e: nat)
    requires Open(pre, fs) && Grown(t, pre, f, e) && NameOk(f.name) && ValueOk(f.value) && NUL !in t
    ensures Closed(t, fs + [f])
  {
    FieldPart(t, pre, f, e);
    GrownFields(t, pre, fs, f, e);
    GrownNames(t, pre, fs, f, e);
    NoBlank(t, pre, e);
    forall i | 0 <= i < |pre|
      ensures LegalAt(t, i)
    {
      assert LegalAt(pre, i);
      QuotePrefix(pre, t, i);
    }
    assert e < |t| - 1 && !CutAt(t, |t| - 1);
  }

  lemma StandIn(a: string, x: string, b: string)
    ensures StandsAt(a + x + b, |a|, x)
  {
  }

  // The two ways to cut `pre` and a printed field
  lemma {:induction false} CutName(a: string, n: string, c: string, v: string)
    ensures a + (n + c + v) == a + n + (c + v)
  {
  }

  lemma {:induction false} CutValue(a: string, n: string, c: string, v: string)
    ensures a + (n + c + v) == (a + n + c) + v + ""
  {
  }

  lemma {:induction false} EqualsSign(a: string, n: string, v: string)
    ensures var t := a + (n + [ULM_EQ] + v);
      a <= t && |t| == |a| + |n| + 1 + |v| && t[|a| + |n|] == ULM_EQ
  {
  }

  lemma {:induction false} PrintGrows(pre: string, f: Field)
    ensures Grown(pre + Print(f), pre, f, |pre| + |f.name|)
  {
    var n, v, t := f.name, f.value, pre + Print(f);
    EqualsSign(pre, n, v);
    assert StandsAt(t, |pre|, n) by {
      CutName(pre, n, [ULM_EQ], v);
      StandIn(pre, n, [ULM_EQ] + v);
    }
    assert StandsAt(t, |pre| + |n| + 1, v) by {
      CutValue(pre, n, [ULM_EQ], v);
      StandIn(pre + n + [ULM_EQ], v, "");
    }
  }

  lemma {:induction false} PrintHasNoNul(pre: string, f: Field)
    requires NameOk(f.name) && ValueOk(f.value) && NUL !in pre
    ensures NUL !in pre + Print(f)
  {
    assert NUL !in f.name;
  }

  lemma {:induction false} GrowLine(s: string, fs: seq<Field>, f: Field)
    requires Closed(s, fs) && NameOk(f.name) && ValueOk(f.value)
    ensures Closed(s + " " + Print(f), fs + [f])
  {
    AddBlank(s, s + " ", fs);
    PrintGrows(s + " ", f);
    PrintHasNoNul(s + " ", f);
    AddField(s + " " + Print(f), s + " ", fs, f, |s| + 1 + |f.name|);
  }

  lemma {:induction false} FirstField(f: Field)
    requires NameOk(f.name) && ValueOk(f.value)
    ensures Closed(Print(f), [f])
  {
    PrintGrows("", f);
    PrintHasNoNul("", f);
    assert "" + Print(f) == Print(f);
    AddField(Print(f), "", [], f, |f.name|);
  }

  lemma SplitLast(fs: seq<Field>)
    requires fs != []
    ensures fs[..|fs| - 1] + [fs[|fs| - 1]] == fs && (|fs| == 1 ==> fs == [fs[0]])
  {
  }

  lemma {:induction false} LineCloses(fs: seq<Field>)
    requires FieldsOk(fs) && fs != []
    ensures Closed(Line(fs), fs)
    decreases |fs|
  {
    var n := |fs| - 1;
    if n == 0 {
      FirstField(fs[0]);
    } else {
      LineCloses(fs[..n]);
      GrowLine(Line(fs[..n]), fs[..n], fs[n]);
    }
    SplitLast(fs);
  }

  /** Printing any fields with legal names and values gives a legal line with exactly these fields. */
  lemma {:induction false} PrintParse(fs: seq<Field>)
    requires FieldsOk(fs) && fs != []
    ensures Legal(Line(fs)) && HasFields(Line(fs), fs) && NUL !in Line(fs)
    ensures |Blanks(Line(fs), |Line(fs)|)| == |fs| - 1
  {
    LineCloses(fs);
  }

  /** A printed line starts with a name character. */
  lemma {:induction false} LineStart(fs: seq<Field>)
    requires FieldsOk(fs) && fs != []
    ensures Line(fs) != "" && IsAlphaExt(Line(fs)[0])
    decreases |fs|
  {
    if |fs| > 1 {
      LineStart(fs[..|fs| - 1]);
    } else {
      assert Line(fs)[0] == fs[0].name[0];
    }
  }

  // ---------- Which names are accepted ----------

  /** Fields whose names are made of the listed characters. */
  predicate FieldsListed(fs: seq<Field>) {
    forall k :: 0 <= k < |fs| ==> fs[k].name != "" && AllListed(fs[k].name) && ValueOk(fs[k].value)
  }

  lemma {:induction false} ListedNamesOk(fs: seq<Field>)
    ensures FieldsListed(fs) <==> FieldsOk(fs)
  {
    forall k | 0 <= k < |fs|
      ensures NameOk(fs[k].name) <==> fs[k].name != "" && AllListed(fs[k].name)
    {
      ListedIff(fs[k].name);
    }
  }

  // Without a quote in between, nothing becomes quoted
  lemma {:induction false} StaysOutside(s: string, a: nat, e: nat)
    requires a <= e <= |s| && QuoteAt(s, a) == Outside && ULM_QM !in s[a..e]
    ensures QuoteAt(s, e) == Outside
  {
    if a < e {
      assert s[a..e - 1] <= s[a..e];
      assert s[e - 1] == s[a..e][e - 1 - a];
      StaysOutside(s, a, e - 1);
    }
  }

  // The '=' at e is not the first one, and what stands before it is no name
  lemma {:induction false} NoNameNotLegal(s: string, p: nat, e: nat)
    requires p < e < |s| && EqualsAt(s, p) && EqualsAt(s, e) && !NamedAt(s, e)
    ensures !Legal(s)
  {
    EqualsComplete(s, |s|, p);
    EqualsComplete(s, |s|, e);
    var j :| 0 <= j < |Equals(s, |s|)| && Equals(s, |s|)[j] == p;
    var k :| 0 <= k < |Equals(s, |s|)| && Equals(s, |s|)[k] == e;
    if k == 0 && j > 0 {
      EqualsSorted(s, |s|, 0, j);
    }
  }

  /** A name that has the character c, which is not listed; behind c only listed ones follow. (A blank
      would end the name, and a quote would hide the '='.) */
  predicate OtherName(x: string, c: char, y: string) {
    ULM_QM !in x && c !in NAME_CHARS && c !in " \t\"" && AllListed(y)
  }

  lemma {:induction false} OtherNameIs(x: string, c: char, y: string)
    requires OtherName(x, c, y)
    ensures !IsAlphaExt(c) && !IsBlank(c) && c != ULM_QM && ULM_QM !in x
    ensures forall i :: 0 <= i < |y| ==> IsAlphaExt(y[i])
  {
    NameCharsAre(c);
    ListedIff(y);
  }

  /** A line that has such a name behind some fields, and anything behind its '='. */
  function OtherLine(fs: seq<Field>, x: string, c: char, y: string, t: string): string {
    Line(fs) + (" " + x + [c] + y + ("=" + t))
  }

  // Where the parts of that line are
  lemma {:induction false} OtherParts(a: string, x: string, c: char, y: string, t: string)
    ensures var s := a + (" " + x + [c] + y + ("=" + t));
      var n, e := |a| + 1 + |x|, |a| + 2 + |x| + |y|;
      && a <= s && e < |s| && s[n] == c && s[e] == '=' && s[n + 1..e] == y && s[|a|..e] == " " + x + [c] + y
  {
  }

  // The quoting of such a line
  lemma {:induction false} OtherOutside(s: string, a: nat, n: nat, e: nat, x: string, c: char, y: string)
    requires a <= n < e < |s| && QuoteAt(s, a) == Outside && s[a..e] == " " + x + [c] + y
    requires ULM_QM !in x && c != ULM_QM && forall i :: 0 <= i < |y| ==> IsAlphaExt(y[i])
    ensures QuoteAt(s, e) == Outside
  {
    assert ULM_QM !in y;
    StaysOutside(s, a, e);
  }

  /** A later name with a character that is not listed is refused. */
  lemma {:induction false} OtherNamesRefused(fs: seq<Field>, x: string, c: char, y: string, t: string)
    requires FieldsOk(fs) && fs != [] && OtherName(x, c, y)
    ensures !Legal(OtherLine(fs, x, c, y, t))
  {
    var a, s := Line(fs), OtherLine(fs, x, c, y, t);
    var n, e := |a| + 1 + |x|, |a| + 2 + |x| + |y|;
    OtherParts(a, x, c, y, t);
    var p := FieldsInFrontOf(fs, s);
    RefusedAt(s, |a|, n, e, x, c, y, p);
  }

  // Fields in front of anything: some '=', and nothing left open
  lemma {:induction false} FieldsInFrontOf(fs: seq<Field>, s: string) returns (p: nat)
    requires FieldsOk(fs) && fs != [] && Line(fs) <= s
    ensures p < |Line(fs)| && EqualsAt(s, p) && QuoteAt(s, |Line(fs)|) == Outside
  {
    var a := Line(fs);
    PrintParse(fs);
    p := Equals(a, |a|)[0];
    EqualsSound(a, |a|, 0);
    QuotePrefix(a, s, p);
    QuotePrefix(a, s, |a|);
    assert s[p] == a[p];
  }

  lemma {:induction false} RefusedAt(s: string, a: nat, n: nat, e: nat, x: string, c: char, y: string, p: nat)
    requires a <= n < e < |s| && QuoteAt(s, a) == Outside && s[a..e] == " " + x + [c] + y
    requires s[n] == c && s[e] == '=' && s[n + 1..e] == y && p < a && EqualsAt(s, p) && OtherName(x, c, y)
    ensures !Legal(s)
  {
    OtherNameIs(x, c, y);
    OtherOutside(s, a, n, e, x, c, y);
    OtherNotNamed(s, n, e, y);
    NoNameNotLegal(s, p, e);
  }

  lemma {:induction false} OtherNotNamed(s: string, n: nat, e: nat, y: string)
    requires n < e < |s| && !IsAlphaExt(s[n]) && !IsBlank(s[n]) && s[n + 1..e] == y
    requires forall i :: 0 <= i < |y| ==> IsAlphaExt(y[i])
    ensures !NamedAt(s, e)
  {
    forall i | n + 1 <= i < e ensures IsAlphaExt(s[i]) {
      assert s[i] == y[i - n - 1];
    }
    NameStartIs(s, e, n + 1);
  }
}
