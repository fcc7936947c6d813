/** Log lines in ULM form (draft-abela-ulm-05) as a reader understands them: which characters are
    inside quotes, where the fields are, and which lines are legal. Nothing here counts quotes or
    looks back at the previous character; that is the parser's business. */
module UlmLine {
  import opened CText

  const ULM_EQ := '='
  const ULM_QM := '"'
  const ULM_BS := '\\'
  const ULM_FIELDS_MAX := 100

  // ULMisalphaext
  predicate IsAlphaExt(c: char) {
    IsAlnum(c) || c == '.' || c == '-' || c == '_'
  }

  /** The characters of names, one by one. */
  const NAME_CHARS: string := UPPER + LOWER + DIGITS + ".-_"

  lemma {:induction false} NameCharsAre(c: char)
    ensures IsAlphaExt(c) <==> c in NAME_CHARS
  {
    ClassesAre(c);
    assert c in ".-_" <==> c == '.' || c == '-' || c == '_';
  }

  // ---------- Quoting ----------

  datatype Quote = Outside | Inside | Escaped

  function After(q: Quote, c: char): Quote {
    match q
    case Outside => if c == ULM_QM then Inside else Outside
    case Inside => if c == ULM_BS then Escaped else if c == ULM_QM then Outside else Inside
    case Escaped => Inside
  }

  /** The quoting in front of position `i`. */
  function QuoteAt(s: string, i: nat): Quote
    requires i <= |s|
  {
    if i == 0 then Outside else After(QuoteAt(s, i - 1), s[i - 1])
  }

  // ---------- Delimiters ----------

  predicate EqualsAt(s: string, i: nat)
    requires i < |s|
  {
    QuoteAt(s, i) == Outside && s[i] == ULM_EQ
  }

  predicate BlankAt(s: string, i: nat)
    requires i < |s|
  {
    QuoteAt(s, i) == Outside && IsBlank(s[i])
  }

  predicate LineFeedAt(s: string, i: nat)
    requires i < |s|
  {
    QuoteAt(s, i) == Outside && s[i] == LF
  }

  // Where a field text stops
  predicate CutAt(s: string, i: nat)
    requires i < |s|
  {
    EqualsAt(s, i) || BlankAt(s, i) || LineFeedAt(s, i)
  }

  /** The unquoted '=' among the first `n` characters, in order. */
  function Equals(s: string, n: nat): (r: seq<nat>)
    requires n <= |s|
    ensures |r| <= n
    ensures forall k :: 0 <= k < |r| ==> r[k] < n
  {
    if n == 0 then []
    else if EqualsAt(s, n - 1) then Equals(s, n - 1) + [n - 1]
    else Equals(s, n - 1)
  }

  /** The unquoted blanks among the first `n` characters, in order. */
  function Blanks(s: string, n: nat): (r: seq<nat>)
    requires n <= |s|
    ensures |r| <= n
    ensures forall k :: 0 <= k < |r| ==> r[k] < n
  {
    if n == 0 then []
    else if BlankAt(s, n - 1) then Blanks(s, n - 1) + [n - 1]
    else Blanks(s, n - 1)
  }

  lemma {:induction false} EqualsSound(s: string, n: nat, k: nat)
    requires n <= |s| && k < |Equals(s, n)|
    ensures EqualsAt(s, Equals(s, n)[k])
  {
    if k < |Equals(s, n - 1)| {
      EqualsSound(s, n - 1, k);
    }
  }

  lemma {:induction false} EqualsSorted(s: string, n: nat, k: nat, l: nat)
    requires n <= |s| && k < l < |Equals(s, n)|
    ensures Equals(s, n)[k] < Equals(s, n)[l]
  {
    if l < |Equals(s, n - 1)| {
      EqualsSorted(s, n - 1, k, l);
    }
  }

  /** Membership, in one statement for all positions. */
  lemma {:induction false} EqualsExact(s: string)
    ensures forall j :: 0 <= j < |s| ==> (EqualsAt(s, j) <==> j in Equals(s, |s|))
    ensures forall j :: 0 <= j < |s| ==> (BlankAt(s, j) <==> j in Blanks(s, |s|))
  {
    forall j | 0 <= j < |s|
      ensures EqualsAt(s, j) <==> j in Equals(s, |s|)
      ensures BlankAt(s, j) <==> j in Blanks(s, |s|)
    {
      if EqualsAt(s, j) {
        EqualsComplete(s, |s|, j);
      }
      if BlankAt(s, j) {
        BlanksComplete(s, |s|, j);
      }
      if j in Equals(s, |s|) {
        var k :| 0 <= k < |Equals(s, |s|)| && Equals(s, |s|)[k] == j;
        EqualsSound(s, |s|, k);
      }
      if j in Blanks(s, |s|) {
        var k :| 0 <= k < |Blanks(s, |s|)| && Blanks(s, |s|)[k] == j;
        BlanksSound(s, |s|, k);
      }
    }
  }

  lemma {:induction false} BlanksSound(s: string, n: nat, k: nat)
    requires n <= |s| && k < |Blanks(s, n)|
    ensures BlankAt(s, Blanks(s, n)[k])
  {
    if k < |Blanks(s, n - 1)| {
      BlanksSound(s, n - 1, k);
    }
  }

  lemma EqualsComplete(s: string, n: nat, i: nat)
    requires i < n <= |s| && EqualsAt(s, i)
    ensures i in Equals(s, n)
  {
  }

  lemma BlanksComplete(s: string, n: nat, i: nat)
    requires i < n <= |s| && BlankAt(s, i)
    ensures i in Blanks(s, n)
  {
  }

  // ---------- Legal lines ----------

  // The character at `i`, or the terminating NUL
  function CharAt(s: string, i: nat): char {
    if i < |s| then s[i] else NUL
  }

  /** A '=' needs a name character before it and no blank behind it; a backslash may only be quoted;
      white space follows a closing quote. */
  predicate LegalAt(s: string, i: nat)
    requires i < |s|
  {
    && (EqualsAt(s, i) ==> i > 0 && IsAlphaExt(s[i - 1]) && !IsBlank(CharAt(s, i + 1)))
    && (QuoteAt(s, i) == Outside ==> s[i] != ULM_BS)
    && (QuoteAt(s, i) == Inside && s[i] == ULM_QM ==> IsSpace(CharAt(s, i + 1)) || CharAt(s, i + 1) == NUL)
  }

  predicate LegalUpTo(s: string, n: nat)
    requires n <= |s|
  {
    forall i :: 0 <= i < n ==> LegalAt(s, i)
  }

  /** The start of the run of name characters that ends in front of `e`. */
  function NameStart(s: string, e: nat): (k: nat)
    requires e <= |s|
    ensures k <= e
    ensures forall i :: k <= i < e ==> IsAlphaExt(s[i])
    ensures k > 0 ==> !IsAlphaExt(s[k - 1])
  {
    if e == 0 || !IsAlphaExt(s[e - 1]) then e else NameStart(s, e - 1)
  }

  lemma NameStartsBehind(s: string, e: nat, p: nat)
    requires p < e <= |s| && !IsAlphaExt(s[p])
    ensures NameStart(s, e) > p
  {
  }

  lemma NameStartIs(s: string, e: nat, k: nat)
    requires k <= e <= |s| && (forall i :: k <= i < e ==> IsAlphaExt(s[i]))
    requires k > 0 ==> !IsAlphaExt(s[k - 1])
    ensures NameStart(s, e) == k
  {
  }

  // Field names other than the first one start right after a blank
  predicate NamedAt(s: string, e: nat)
    requires e <= |s|
  {
    NameStart(s, e) > 0 && IsBlank(s[NameStart(s, e) - 1])
  }

  /** Said without the parser's classes: between a blank or tab and the '=' there are only characters
      from the list. */
  lemma {:induction false} NamedIff(s: string, e: nat)
    requires e <= |s|
    ensures NamedAt(s, e) <==> exists p :: 0 <= p < e && (s[p] == ' ' || s[p] == '\t') && AllListed(s[p + 1..e])
  {
    if NamedAt(s, e) {
      var p := NameStart(s, e) - 1;
      ListedIff(s[p + 1..e]);
      assert AllListed(s[p + 1..e]);
    } else if p :| 0 <= p < e && (s[p] == ' ' || s[p] == '\t') && AllListed(s[p + 1..e]) {
      NotNamedBehind(s, p, e);
    }
  }

  lemma {:induction false} NotNamedBehind(s: string, p: nat, e: nat)
    requires p < e <= |s| && (s[p] == ' ' || s[p] == '\t') && AllListed(s[p + 1..e])
    ensures NamedAt(s, e)
  {
    ListedIff(s[p + 1..e]);
    forall i | p + 1 <= i < e ensures IsAlphaExt(s[i]) {
      assert s[i] == s[p + 1..e][i - p - 1];
    }
    NameStartIs(s, e, p + 1);
  }

  predicate AllListed(n: string) {
    forall i :: 0 <= i < |n| ==> n[i] in NAME_CHARS
  }

  lemma {:induction false} ListedIff(n: string)
    ensures AllListed(n) <==> forall i :: 0 <= i < |n| ==> IsAlphaExt(n[i])
  {
    forall i | 0 <= i < |n| ensures n[i] in NAME_CHARS <==> IsAlphaExt(n[i]) {
      NameCharsAre(n[i]);
    }
  }

  ghost predicate Legal(s: string) {
    && LegalUpTo(s, |s|)
    && QuoteAt(s, |s|) == Outside
    && Equals(s, |s|) != []
    && forall k :: 1 <= k < |Equals(s, |s|)| ==> NamedAt(s, Equals(s, |s|)[k])
  }

  // ---------- Fields ----------

  /** The first cut at or behind `from`. */
  function NextCut(s: string, from: nat): (k: nat)
    requires from <= |s|
    ensures from <= k <= |s|
    ensures forall i :: from <= i < k ==> !CutAt(s, i)
    ensures k < |s| ==> CutAt(s, k)
    decreases |s| - from
  {
    if from == |s| || CutAt(s, from) then from else NextCut(s, from + 1)
  }

  datatype Field = Field(name: string, value: string)

  function NameIndex(s: string, k: nat): (i: nat)
    requires k < |Equals(s, |s|)|
    ensures i <= Equals(s, |s|)[k]
  {
    if k == 0 then 0 else NameStart(s, Equals(s, |s|)[k])
  }

  function ValueIndex(s: string, k: nat): (i: nat)
    requires k < |Equals(s, |s|)|
    ensures i <= |s|
  {
    Equals(s, |s|)[k] + 1
  }

  /** The k-th field as the parser will report it. */
  function FieldAt(s: string, k: nat): Field
    requires k < |Equals(s, |s|)|
  {
    Field(s[NameIndex(s, k)..NextCut(s, NameIndex(s, k))], s[ValueIndex(s, k)..NextCut(s, ValueIndex(s, k))])
  }

  /** The fields of a line, in order. */
  ghost predicate HasFields(s: string, fs: seq<Field>) {
    |Equals(s, |s|)| == |fs| && forall k :: 0 <= k < |fs| ==> FieldAt(s, k) == fs[k]
  }
}
