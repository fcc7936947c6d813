/** Job identifiers (cjobid.c): `https://host:port/unique?info`, read, printed and built again. */
module CJobId {
  import opened CText

  const PREFIX: string := "https://"
  const DEFAULT_PORT := 9000
  const ULONG_MAX := 0xffff_ffff_ffff_ffff

  /** A C string: the NUL that ends it is not part of it. */
  type CString = s: string | NUL !in s

  type Port = p: int | 0 <= p < UINT

  datatype JobId = JobId(host: CString, port: Port, id: CString, info: Option<CString>)

  // ---------- Scanning ----------

  /** strrchr: the last position of `c`, or -1. */
  function LastIndexOf(s: string, c: char): (k: int)
    ensures -1 <= k < |s|
    ensures k >= 0 ==> s[k] == c
    ensures forall i :: k < i < |s| ==> s[i] != c
  {
    if s == "" then -1
    else if s[|s| - 1] == c then |s| - 1
    else LastIndexOf(s[..|s| - 1], c)
  }

  predicate HasSpace(s: string) {
    exists i :: 0 <= i < |s| && IsSpace(s[i])
  }

  // The value of strtoul: out of range saturates, a minus sign negates modulo 2^64
  function StrToUL(s: string): (v: nat)
    ensures v <= ULONG_MAX
  {
    var w := SkipSpaces(s, 0);
    var sign := w < |s| && (s[w] == '-' || s[w] == '+');
    var d := if sign then w + 1 else w;
    var n: int := Number(s[d..SkipDigits(s, d)]);
    if n > ULONG_MAX then ULONG_MAX
    else if sign && s[w] == '-' && n > 0 then ULONG_MAX + 1 - n
    else n
  }

  // ---------- Unsigned ports ----------

  /** Conversion to unsigned int, which keeps the low 32 bits. */
  function ToUInt(v: int): Port {
    v % UINT
  }

  /** How printf("%d") and int parameters see an unsigned port. */
  function AsInt(p: Port): int {
    if p <= INT_MAX then p else p - UINT
  }

  lemma {:induction false} AsIntBack(p: Port)
    ensures ToUInt(AsInt(p)) == p && ToInt32(p) == AsInt(p)
  {
  }

  // ---------- Parsing and printing ----------

  // The colon in front of the port, or -1; a colon inside brackets is not one
  function PortColon(server: string): (k: int)
    ensures -1 <= k < |server| && (k >= 0 ==> server[k] == ':')
  {
    var k := LastIndexOf(server, ':');
    if k >= 0 && ']' in server[k..] then -1 else k
  }

  function ServerHost(server: CString): CString {
    var k := PortColon(server);
    if k >= 0 then server[..k] else server
  }

  function ServerPort(server: CString): Port {
    var k := PortColon(server);
    if k >= 0 then ToUInt(StrToUL(server[k + 1..])) else DEFAULT_PORT
  }

  /** glite_jobid_parse; None stands for EINVAL. */
  function Parse(s: CString): Option<JobId> {
    if PREFIX <= s then ParseRest(s[|PREFIX|..]) else None
  }

  // What follows the prefix
  function ParseRest(pom: CString): Option<JobId> {
    var slash := IndexOf(pom, '/');
    if slash == |pom| then None else Assemble(pom[..slash], pom[slash + 1..])
  }

  // The fields from the text before and after the slash
  function Assemble(server: CString, path: CString): Option<JobId> {
    var q := IndexOf(path, '?');
    var j := JobId(ServerHost(server), ServerPort(server), path[..q],
                   if q < |path| then Some(path[q + 1..]) else None);
    if HasSpace(j.host) || HasSpace(j.id) then None else Some(j)
  }

  // The port that printing shows: 0 stands for the default
  function EffectivePort(port: Port): (p: Port)
    ensures p > 0
  {
    if port == 0 then DEFAULT_PORT else port
  }

  function InfoText(info: Option<CString>): CString {
    match info
    case Some(t) => "?" + t
    case None => ""
  }

  lemma {:induction false} SignedDecimalNoNul(n: int)
    ensures forall i :: 0 <= i < |SignedDecimal(n)| ==> IsDigit(SignedDecimal(n)[i]) || SignedDecimal(n)[i] == '-'
    ensures NUL !in SignedDecimal(n)
  {
  }

  // The unsigned port passes through "%d"
  function PortText(port: Port): CString {
    SignedDecimalNoNul(AsInt(EffectivePort(port)));
    SignedDecimal(AsInt(EffectivePort(port)))
  }

  /** glite_jobid_unparse. */
  function Unparse(j: JobId): CString {
    PREFIX + (j.host + ":" + PortText(j.port) + "/" + (j.id + InfoText(j.info)))
  }

  // ---------- Round trips ----------

  /** What a job id must be like to survive printing. */
  predicate Printable(j: JobId) {
    '/' !in j.host && !HasSpace(j.host) && '?' !in j.id && !HasSpace(j.id)
  }

  lemma {:induction false} LastIndexIs(s: string, c: char, k: nat)
    requires k < |s| && s[k] == c && forall i :: k < i < |s| ==> s[i] != c
    ensures LastIndexOf(s, c) == k
  {
  }

  lemma {:induction false} ScanPositive(n: nat)
    requires n <= ULONG_MAX
    ensures StrToUL(Decimal(n)) == n
  {
    var s := Decimal(n);
    assert IsDigit(s[0]);
    SkipSpacesIs(s, 0, 0);
    SkipDigitsIs(s, 0, |s|);
    assert s[0..|s|] == s;
    NumberOfDecimal(n);
  }

  lemma {:induction false} ScanNegative(n: nat)
    requires 0 < n <= ULONG_MAX
    ensures StrToUL("-" + Decimal(n)) == ULONG_MAX + 1 - n
  {
    var s := "-" + Decimal(n);
    assert IsDigit(s[1]) && forall i :: 1 <= i < |s| ==> s[i] == Decimal(n)[i - 1];
    SkipSpacesIs(s, 0, 0);
    SkipDigitsIs(s, 1, |s|);
    assert s[1..|s|] == Decimal(n);
    NumberOfDecimal(n);
  }

  // A port survives, even one that prints as a negative number
  lemma {:induction false} PortBack(port: Port)
    ensures ToUInt(StrToUL(PortText(port))) == EffectivePort(port)
  {
    var p := EffectivePort(port);
    PortNumber(p);
    LowHalf(p);
  }

  // What strtoul makes of a printed port
  lemma {:induction false} PortNumber(p: Port)
    ensures StrToUL(SignedDecimal(AsInt(p))) == if p <= INT_MAX then p else ULONG_MAX + 1 - (UINT - p)
  {
    if p <= INT_MAX {
      ScanPositive(p);
    } else {
      ScanNegative(UINT - p);
    }
  }

  lemma {:induction false} LowHalf(p: Port)
    ensures ToUInt(ULONG_MAX + 1 - (UINT - p)) == p && ToUInt(p) == p
  {
    assert ULONG_MAX + 1 - (UINT - p) == UINT * 0xffff_ffff + p;
  }

  lemma {:induction false} ColonBack(host: string, t: string)
    requires ':' !in t && ']' !in t
    ensures var server := host + ":" + t;
      PortColon(server) == LastIndexOf(server, ':') == |host| && server[..|host|] == host && server[|host| + 1..] == t
  {
    var server := host + ":" + t;
    var k := |host|;
    assert server[k..] == ":" + t;
    assert forall i :: k < i < |server| ==> server[i] == t[i - k - 1];
    LastIndexIs(server, ':', k);
  }

  lemma {:induction false} ServerBack(host: CString, port: Port)
    ensures var server: CString := host + ":" + PortText(port);
      ServerHost(server) == host && ServerPort(server) == EffectivePort(port)
  {
    SignedDecimalNoNul(AsInt(EffectivePort(port)));
    ColonBack(host, PortText(port));
    PortBack(port);
  }

  lemma {:induction false} PathBack(id: CString, info: Option<CString>)
    requires '?' !in id
    ensures var path := id + InfoText(info);
      var q := IndexOf(path, '?');
      path[..q] == id && (if q < |path| then info == Some(path[q + 1..]) else info == None)
  {
    var path := id + InfoText(info);
    match info
    case Some(t) =>
      assert path[|id|] == '?';
      IndexOfIs(path, '?', |id|);
      assert path[|id| + 1..] == t;
    case None =>
      assert path == id;
  }

  /** Parsing what was printed: the same job id with the default port for port 0. */
  lemma {:induction false} ParseUnparse(j: JobId)
    requires Printable(j)
    ensures Parse(Unparse(j)) == Some(j.(port := EffectivePort(j.port)))
  {
    var server: CString := j.host + ":" + PortText(j.port);
    var path: CString := j.id + InfoText(j.info);
    NoSlash(j.host, j.port);
    ParseCut(server, path);
    AssembleBack(j);
  }

  lemma {:induction false} ParseCut(server: CString, path: CString)
    requires '/' !in server
    ensures Parse(PREFIX + (server + "/" + path)) == Assemble(server, path)
  {
    var pom: CString := server + "/" + path;
    assert (PREFIX + pom)[|PREFIX|..] == pom;
    assert pom[|server|] == '/';
    IndexOfIs(pom, '/', |server|);
    assert pom[..|server|] == server && pom[|server| + 1..] == path;
  }

  lemma {:induction false} AssembleBack(j: JobId)
    requires Printable(j)
    ensures Assemble(j.host + ":" + PortText(j.port), j.id + InfoText(j.info))
         == Some(j.(port := EffectivePort(j.port)))
  {
    ServerBack(j.host, j.port);
    PathBack(j.id, j.info);
  }

  lemma {:induction false} NoSlash(host: CString, port: Port)
    requires '/' !in host
    ensures '/' !in host + ":" + PortText(port)
  {
    SignedDecimalNoNul(AsInt(EffectivePort(port)));
  }

  /** Whatever is accepted is printable. */
  lemma {:induction false} ParsedIsPrintable(s: CString)
    ensures Parse(s).Some? ==> Printable(Parse(s).value)
  {
    if Parse(s).None? {
      return;
    }
    var pom := s[|PREFIX|..];
    var slash := IndexOf(pom, '/');
    var server: CString := pom[..slash];
    assert '/' !in server;
    assert '/' !in ServerHost(server);
  }

  /** Exactly the printable job ids with a nonzero port come back unchanged. */
  lemma {:induction false} SurvivesIff(j: JobId)
    ensures Parse(Unparse(j)) == Some(j) <==> Printable(j) && j.port != 0
  {
    if Printable(j) {
      ParseUnparse(j);
    }
    if Parse(Unparse(j)) == Some(j) {
      ParsedIsPrintable(Unparse(j));
    }
  }

  /** Printing what was parsed is a normal form: it is accepted, means the same, and printing it
      again changes nothing. */
  lemma {:induction false} NormalForm(s: CString)
    ensures Parse(s).Some? ==>
              var j := Parse(s).value;
              && Parse(Unparse(j)) == Some(j.(port := EffectivePort(j.port)))
              && Unparse(Parse(Unparse(j)).value) == Unparse(j)
  {
    ParsedIsPrintable(s);
    if Parse(s).Some? {
      ParseUnparse(Parse(s).value);
    }
  }

  /** A server without a port, be it because its last colon is inside brackets, means the default one. */
  lemma {:induction false} DefaultPort(server: CString, path: CString)
    requires '/' !in server && PortColon(server) < 0
    ensures Parse(PREFIX + (server + "/" + path))
         == Parse(PREFIX + (server + ":" + PortText(DEFAULT_PORT) + "/" + path))
  {
    var full: CString := server + ":" + PortText(DEFAULT_PORT);
    NoSlash(server, DEFAULT_PORT);
    ServerBack(server, DEFAULT_PORT);
    SameAssembly(server, full, path);
    ParseCut(server, path);
    ParseCut(full, path);
  }

  lemma {:induction false} SameAssembly(server: CString, server': CString, path: CString)
    requires ServerHost(server) == ServerHost(server') && ServerPort(server) == ServerPort(server')
    ensures Assemble(server, path) == Assemble(server', path)
  {
  }

  // ---------- The texts, spelled out ----------

  /** The text of a job id. */
  lemma {:induction false} UnparseText(j: JobId)
    ensures 0 < j.port <= INT_MAX && j.info.None? ==>
              Unparse(j) == "https://" + (j.host + ":" + Decimal(j.port) + "/" + (j.id + ""))
    ensures 0 < j.port <= INT_MAX && j.info.Some? ==>
              Unparse(j) == "https://" + (j.host + ":" + Decimal(j.port) + "/" + (j.id + ("?" + j.info.value)))
    ensures j.port == 0 ==> Unparse(j) == Unparse(j.(port := 9000))
    ensures j.port > INT_MAX ==> PortText(j.port) == "-" + Decimal(UINT - j.port)
    ensures GetServer(j) == j.host + ":" + Decimal(if j.port == 0 then 9000 else j.port)
  {
  }

  /** The colon in front of a port is the last one, unless a bracket closes behind it. */
  lemma {:induction false} NoPortIff(server: string)
    ensures PortColon(server) < 0 <==> forall i :: 0 <= i < |server| && server[i] == ':' ==> ']' in server[i..]
  {
    var k := LastIndexOf(server, ':');
    if k >= 0 {
      forall i | 0 <= i < |server| && server[i] == ':' ensures ']' in server[k..] ==> ']' in server[i..] {
        assert i <= k && server[i..][k - i..] == server[k..];
      }
      assert server[k] == ':';
    }
  }

  /** A server that has no colon, or ends in a bracket, is all host, and has the default port. */
  lemma {:induction false} AllHost(server: CString)
    requires ':' !in server || (server != "" && server[|server| - 1] == ']')
    ensures ServerHost(server) == server && ServerPort(server) == 9000
  {
    NoPortIff(server);
    forall i | 0 <= i < |server| && server[i] == ':' ensures ']' in server[i..] {
      assert server[i..][|server| - 1 - i] == ']';
    }
  }

  /** Digits behind the colon are the port, reduced to 32 bits, and what stands before it is the host. */
  lemma {:induction false} HostAndPort(host: CString, digits: CString)
    requires digits != "" && AllDigits(digits) && Number(digits) <= ULONG_MAX
    ensures var server: CString := host + ":" + digits;
      ServerHost(server) == host && ServerPort(server) == Number(digits) % UINT
  {
    ColonBack(host, digits);
    assert IsDigit(digits[0]);
    SkipSpacesIs(digits, 0, 0);
    SkipDigitsIs(digits, 0, |digits|);
    assert digits[0..|digits|] == digits;
  }

  /** What is refused: another scheme, no slash behind it, or white space in host or unique part; and
      nothing else. */
  lemma {:induction false} RefusedIff(server: CString, path: CString)
    requires '/' !in server
    ensures Parse("https://" + (server + "/" + path)).None?
            <==> HasSpace(ServerHost(server)) || HasSpace(path[..IndexOf(path, '?')])
  {
    ParseCut(server, path);
  }

  lemma {:induction false} RefusedWithout(s: CString)
    ensures !("https://" <= s) ==> Parse(s).None?
    ensures "https://" <= s && '/' !in s[8..] ==> Parse(s).None?
    ensures Parse(s).Some? ==> |s| >= 9 && s[..8] == "https://" && '/' in s[8..]
  {
  }

  /** White space, one by one. */
  lemma {:induction false} SpacesAre(s: string)
    ensures HasSpace(s) <==> exists i :: 0 <= i < |s| && s[i] in " \t\n\U{0b}\U{0c}\r"
  {
    forall i | 0 <= i < |s| ensures IsSpace(s[i]) <==> s[i] in " \t\n\U{0b}\U{0c}\r" {
      ClassesAre(s[i]);
    }
  }

  // ---------- Parsing in place ----------

  // What C reads at a position that a NUL follows
  lemma {:induction false} CStrOf(a: string, x: string, rest: string)
    requires a == x + [NUL] + rest && NUL !in x
    ensures CStr(a) == x
  {
    assert a[|x|] == NUL;
    assert forall i :: 0 <= i < |x| ==> a[i] == x[i];
    IndexOfIs(a, NUL, |x|);
  }

  /** The colon in front of the port. */
  method FindPort(pom: array<char>, ghost server: CString, ghost rest: string) returns (pom2: int)
    requires pom[..] == server + [NUL] + rest
    ensures pom2 == PortColon(server)
  {
    CStrOf(pom[..], server, rest);
    pom2 := LastIndexOf(CStr(pom[..]), ':');
    if pom2 >= 0 {
      assert pom[pom2..] == server[pom2..] + [NUL] + rest;
      CStrOf(pom[pom2..], server[pom2..], rest);
      if ']' in CStr(pom[pom2..]) {
        pom2 := -1;
      }
    }
  }

  /** The host and port, cut out of the copied string at the colon. */
  method CutServer(pom: array<char>, ghost server: CString, ghost rest: string) returns (host: CString, port: Port)
    requires pom[..] == server + [NUL] + rest
    modifies pom
    ensures host == ServerHost(server) && port == ServerPort(server)
    ensures pom[|server| + 1..] == rest
  {
    CStrOf(pom[..], server, rest);
    var pom2 := FindPort(pom, server, rest);
    port := DEFAULT_PORT;
    if pom2 >= 0 {
      CutAt(pom, pom2, server, rest);
      port := ToUInt(StrToUL(CStr(pom[pom2 + 1..])));
    }
    host := CStr(pom[..]);
  }

  // Writing a NUL into the first of two strings makes three
  method CutAt(pom: array<char>, k: nat, ghost server: CString, ghost rest: string)
    requires k < |server| && pom[..] == server + [NUL] + rest
    modifies pom
    ensures CStr(pom[..]) == server[..k] && CStr(pom[k + 1..]) == server[k + 1..]
    ensures pom[|server| + 1..] == rest
  {
    pom[k] := NUL;
    ghost var tail := server[k + 1..] + [NUL] + rest;
    assert pom[k + 1..] == tail;
    assert pom[..] == server[..k] + [NUL] + tail;
    CStrOf(pom[..], server[..k], tail);
    CStrOf(pom[k + 1..], server[k + 1..], rest);
  }

  /** The unique part and the additional information, cut at the question mark. */
  method CutPath(pom: array<char>, at: nat, ghost path: CString) returns (id: CString, info: Option<CString>)
    requires at <= pom.Length && pom[at..] == path + [NUL]
    modifies pom
    ensures var q := IndexOf(path, '?');
      id == path[..q] && info == if q < |path| then Some(path[q + 1..]) else None
  {
    CStrOf(pom[at..], path, "");
    var t := CStr(pom[at..]);
    var q := IndexOf(t, '?');
    info := None;
    if q < |t| {
      pom[at + q] := NUL;
      assert pom[at..] == path[..q] + [NUL] + (path[q + 1..] + [NUL]);
      assert pom[at + q + 1..] == path[q + 1..] + [NUL] + "";
      CStrOf(pom[at..], path[..q], path[q + 1..] + [NUL]);
      CStrOf(pom[at + q + 1..], path[q + 1..], "");
      info := Some(CStr(pom[at + q + 1..]));
    }
    id := CStr(pom[at..]);
  }

  /** glite_jobid_parse, which cuts a copy of its argument at three places. */
  method ParseInPlace(idString: CString) returns (jobId: Option<JobId>)
    ensures jobId == Parse(idString)
  {
    if PREFIX <= idString {
      jobId := ParseRestInPlace(idString[|PREFIX|..]);
    } else {
      jobId := None;
    }
  }

  method Strdup(t: CString) returns (pom: array<char>)
    ensures fresh(pom) && pom[..] == t + [NUL]
  {
    pom := new char[|t| + 1](i => if 0 <= i < |t| then t[i] else NUL);
  }

  method ParseRestInPlace(t: CString) returns (jobId: Option<JobId>)
    ensures jobId == ParseRest(t)
  {
    var pom1 := IndexOf(t, '/');
    if pom1 == |t| {
      return None;
    }
    ghost var server: CString, path: CString := t[..pom1], t[pom1 + 1..];
    var pom := Strdup(t);
    pom[pom1] := NUL;
    assert pom[..] == server + [NUL] + (path + [NUL]);
    var host, port := CutServer(pom, server, path + [NUL]);
    var id, info := CutPath(pom, pom1 + 1, path);
    jobId := if HasSpace(host) || HasSpace(id) then None else Some(JobId(host, port, id, info));
  }

  // ---------- Building from a server ----------

  /** glite_jobid_getServer. */
  function GetServer(j: JobId): CString {
    j.host + ":" + Decimal(EffectivePort(j.port))
  }

  /** glite_jobid_recreate with a given unique part; None stands for EINVAL. */
  function Recreate(bkserver: CString, port: int, unique: CString): Option<JobId> {
    if PREFIX <= bkserver then None
    else
      var k := LastIndexOf(bkserver, ':');
      var host: CString := if k >= 0 then bkserver[..k] else bkserver;
      var given := if port == 0 && k >= 0 then Atoi(bkserver[k + 1..]) else port;
      Some(JobId(host, ToUInt(if given == 0 then DEFAULT_PORT else given), unique, None))
  }

  /** With a nonzero port, the server is kept as given exactly when it has no colon. */
  lemma {:induction false} RecreateKeepsServer(host: CString, port: int, unique: CString)
    requires port != 0
    ensures Recreate(host, port, unique) == Some(JobId(host, ToUInt(port), unique, None)) <==> ':' !in host
  {
    var k := LastIndexOf(host, ':');
    if PREFIX <= host {
      assert host[5] == ':';
    }
    if ':' in host {
      assert k >= 0;
      assert PREFIX <= host || Recreate(host, port, unique).value.host == host[..k] != host;
    }
  }

  /** A server text without a colon is the host; its port is the one given, or else the default one. */
  lemma {:induction false} RecreatePlain(host: CString, port: int, unique: CString)
    requires ':' !in host
    ensures Recreate(host, port, unique) == Some(JobId(host, ToUInt(if port == 0 then 9000 else port), unique, None))
  {
    assert PREFIX[5] == ':';
  }

  /** Behind the last colon stands a port, which counts if none is given; the host stands before it. */
  lemma {:induction false} RecreateWithColon(host: CString, t: CString, port: int, unique: CString)
    requires ':' !in t && !("https://" <= host + ":" + t)
    ensures var written := Atoi(t);
      var p := if port != 0 then port else if written != 0 then written else 9000;
      Recreate(host + ":" + t, port, unique) == Some(JobId(host, ToUInt(p), unique, None))
  {
    var s := host + ":" + t;
    assert forall i :: |host| < i < |s| ==> s[i] == t[i - |host| - 1];
    LastIndexIs(s, ':', |host|);
    assert s[..|host|] == host && s[|host| + 1..] == t;
  }

  /** Building from the text that getServer returns gives the same host and port, bracketed and
      plain IPv6 hosts included. */
  lemma {:induction false} RecreateFromServer(j: JobId)
    requires !(PREFIX <= GetServer(j))
    ensures Recreate(GetServer(j), 0, j.id) == Some(JobId(j.host, EffectivePort(j.port), j.id, None))
  {
    var p := EffectivePort(j.port);
    ColonBack(j.host, Decimal(p));
    PrintedPort(p);
  }

  lemma {:induction false} PrintedPort(p: Port)
    ensures ToUInt(Atoi(Decimal(p))) == p
    ensures p > 0 ==> Atoi(Decimal(p)) != 0
  {
    NumberOfDecimal(p);
    ScanDigits(Decimal(p));
    AsIntBack(p);
  }
}
