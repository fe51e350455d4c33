/** config.c: the configuration file, written and read back. */
module Configs {
  import opened Arithmetic

  datatype Config = Config(
    host: string, port: string, tls: int, user: string, pass: string, maxConnections: int,
    connectTimeout: int, readTimeout: int, retryCount: int, outputDir: string, tempDir: string, maxRetries: int)

  // ----- characters and numbers -----

  predicate IsSpace(c: char) { c == ' ' || 9 as char <= c <= 13 as char }

  function TrimLeft(s: string): string { if |s| > 0 && IsSpace(s[0]) then TrimLeft(s[1..]) else s }

  function TrimRight(s: string): string { if |s| > 0 && IsSpace(s[|s| - 1]) then TrimRight(s[..|s| - 1]) else s }

  /** trim() */
  function Trim(s: string): string { TrimRight(TrimLeft(s)) }

  /** No space at either end. */
  predicate Tidy(s: string) { |s| > 0 ==> !IsSpace(s[0]) && !IsSpace(s[|s| - 1]) }

  predicate IsDigit(c: char) { '0' <= c <= '9' }

  function PrintNat(n: nat): (r: string)
    ensures |r| > 0 && forall i :: 0 <= i < |r| ==> IsDigit(r[i])
  {
    (if n < 10 then "" else PrintNat(n / 10)) + ['0' + (n % 10) as char]
  }

  /** "%d" */
  function Print(n: int): string { if n < 0 then "-" + PrintNat(-n) else PrintNat(n) }

  /** The value of the digits at the start. */
  function ParseNat(s: string, acc: nat): nat
    decreases |s|
  {
    if |s| > 0 && IsDigit(s[0]) then ParseNat(s[1..], 10 * acc + (s[0] - '0') as nat) else acc
  }

  /** A number as a `long`, and that as an `int`. */
  function ToInt(v: int): int {
    var l := if v < -0x8000_0000_0000_0000 then -0x8000_0000_0000_0000
             else if v > 0x7fff_ffff_ffff_ffff then 0x7fff_ffff_ffff_ffff else v;
    (l + 0x8000_0000) % 0x1_0000_0000 - 0x8000_0000
  }

  /** atoi() */
  function Atoi(s: string): int {
    var t := TrimLeft(s);
    ToInt(if |t| > 0 && t[0] == '-' then -(ParseNat(t[1..], 0) as int)
          else if |t| > 0 && t[0] == '+' then ParseNat(t[1..], 0) else ParseNat(t, 0))
  }

  lemma {:induction false} ParseAppend(s: string, c: char, acc: nat)
    requires (forall i :: 0 <= i < |s| ==> IsDigit(s[i])) && IsDigit(c)
    ensures ParseNat(s + [c], acc) == 10 * ParseNat(s, acc) + (c - '0') as nat
    decreases |s|
  {
    if |s| == 0 {
      assert (s + [c])[1..] == "" && s + [c] == [c];
      assert ParseNat("", 10 * acc + (c - '0') as nat) == 10 * acc + (c - '0') as nat;
    } else {
      ParseAppend(s[1..], c, 10 * acc + (s[0] - '0') as nat);
      assert (s + [c])[1..] == s[1..] + [c];
    }
  }

  lemma {:induction false} ParsePrint(n: nat)
    ensures ParseNat(PrintNat(n), 0) == n
  {
    var d := '0' + (n % 10) as char;
    var s := if n < 10 then "" else PrintNat(n / 10);
    assert ParseNat("", 0) == 0;
    if n >= 10 { ParsePrint(n / 10); }
    ParseAppend(s, d, 0);
  }

  lemma AtoiPrint(n: int)
    requires Int32(n)
    ensures Atoi(Print(n)) == n && Tidy(Print(n)) && NoNewline(Print(n)) && Print(n) != ""
  {
    hide PrintNat, ParseNat;
    ParsePrint(if n < 0 then -n else n);
    if n < 0 { assert Print(n)[1..] == PrintNat(-n); }
  }

  lemma {:induction false} PrintSize(n: nat, k: nat)
    requires n < TenTo(k) && k > 0
    ensures |PrintNat(n)| <= k
    decreases k
  {
    if n >= 10 { PrintSize(n / 10, k - 1); }
  }

  function TenTo(k: nat): nat { if k == 0 then 1 else 10 * TenTo(k - 1) }

  lemma PrintShort(n: int)
    requires Int32(n)
    ensures |Print(n)| <= 11
  {
    hide PrintNat;
    assert TenTo(5) == 100000;
    assert TenTo(10) == 10000000000;
    PrintSize(if n < 0 then -n else n, 10);
  }

  predicate NoNewline(s: string) { '\n' !in s }

  // ----- trimming -----

  lemma {:induction false} TrimLeftKeeps(s: string)
    ensures |TrimLeft(s)| <= |s| && TrimLeft(s) == s[|s| - |TrimLeft(s)|..]
    ensures |TrimLeft(s)| > 0 ==> !IsSpace(TrimLeft(s)[0])
  {
    if |s| > 0 && IsSpace(s[0]) { TrimLeftKeeps(s[1..]); }
  }

  lemma {:induction false} TrimRightKeeps(s: string)
    ensures |TrimRight(s)| <= |s| && TrimRight(s) == s[..|TrimRight(s)|]
    ensures |TrimRight(s)| > 0 ==> !IsSpace(TrimRight(s)[|TrimRight(s)| - 1])
  {
    if |s| > 0 && IsSpace(s[|s| - 1]) { TrimRightKeeps(s[..|s| - 1]); }
  }

  /** Trimming leaves exactly the tidy strings as they are. */
  lemma TrimTidy(s: string)
    ensures Tidy(Trim(s)) && (Trim(s) == s <==> Tidy(s)) && |Trim(s)| <= |s|
    ensures NoNewline(s) ==> NoNewline(Trim(s))
  {
    TrimLeftKeeps(s);
    TrimRightKeeps(TrimLeft(s));
  }

  /** A newline at the end goes with the spaces before it. */
  lemma TrimNewline(s: string, t: string)
    requires |s| > 0 && !IsSpace(s[0])
    ensures Trim(s + t + "\n") == TrimRight(s + t)
  {
    var u := s + t + "\n";
    assert u[0] == s[0];
    assert u[|u| - 1] == '\n' && u[..|u| - 1] == s + t;
  }

  /** The two loops of trim(). */
  method TrimBuffer(s: string) returns (r: string)
    ensures r == Trim(s)
  {
    var start := 0;
    assert s[0..] == s;
    while start < |s| && IsSpace(s[start])
      invariant 0 <= start <= |s| && TrimLeft(s) == TrimLeft(s[start..])
    {
      assert s[start..][1..] == s[start + 1..];
      start := start + 1;
    }
    var t := s[start..];
    var len := |t|;
    assert t[..len] == t;
    while len > 0 && IsSpace(t[len - 1])
      invariant 0 <= len <= |t| && TrimRight(t) == TrimRight(t[..len])
    {
      assert t[..len][..len - 1] == t[..len - 1];
      len := len - 1;
    }
    r := t[..len];
  }

  // ----- reading -----

  /** snprintf into a buffer of `n` bytes. */
  function Fit(s: string, n: nat): string
    requires n > 0
  {
    if |s| < n then s else s[..n - 1]
  }

  const DEFAULTS: Config :=
    Config("", "", 0, "", "", 4, 60, 15, 5, "/data/games", "/data/nzb-downloader/incomplete", 3)

  /** The keys that apply_kv knows. */
  datatype Key = Host | Port | Tls | User | Pass | MaxConnections | OutputDir | TempDir | MaxRetries | Unknown

  function KeyOf(key: string): Key {
    if key == "host" then Host
    else if key == "port" then Port
    else if key == "ssl" || key == "tls" then Tls
    else if key == "user" then User
    else if key == "pass" then Pass
    else if key == "max_connections" then MaxConnections
    else if key == "output_dir" then OutputDir
    else if key == "temp_dir" then TempDir
    else if key == "max_retries" then MaxRetries
    else Unknown
  }

  /** apply_kv */
  function Apply(cfg: Config, key: Key, val: string): Config {
    match key
    case Host => cfg.(host := Fit(val, 256))
    case Port => cfg.(port := Fit(val, 8))
    case Tls => cfg.(tls := Atoi(val))
    case User => cfg.(user := Fit(val, 128))
    case Pass => cfg.(pass := Fit(val, 128))
    case MaxConnections => cfg.(maxConnections := Atoi(val))
    case OutputDir => cfg.(outputDir := Fit(val, 512))
    case TempDir => cfg.(tempDir := Fit(val, 512))
    case MaxRetries => cfg.(maxRetries := Atoi(val))
    case Unknown => cfg
  }

  /** What C takes a buffer for: up to the first NUL. */
  function CString(s: string): string { if |s| == 0 || s[0] == '\0' then "" else [s[0]] + CString(s[1..]) }

  /** strchr for `=`; the length if there is none. */
  function Equals(s: string): (e: nat)
    ensures e <= |s| && (e < |s| ==> s[e] == '=')
  {
    if |s| == 0 || s[0] == '=' then 0 else 1 + Equals(s[1..])
  }

  /** What one line does. */
  function ApplyLine(cfg: Config, line: string): Config {
    var s := Trim(CString(line));
    if s == "" || s[0] == '#' || Equals(s) == |s| then cfg
    else Apply(cfg, KeyOf(Trim(s[..Equals(s)])), Trim(s[Equals(s) + 1..]))
  }

  /** fgets: at most `n` characters, up to and including a newline. */
  function LineEnd(text: string, i: nat, n: nat): (j: nat)
    requires i <= |text|
    ensures i <= j <= |text| && (i < |text| && n > 0 ==> i < j)
    decreases n
  {
    if n == 0 || i == |text| then i else if text[i] == '\n' then i + 1 else LineEnd(text, i + 1, n - 1)
  }

  function ApplyAll(cfg: Config, text: string, i: nat): Config
    requires i <= |text|
    decreases |text| - i
  {
    if i == |text| then cfg
    else
      var j := LineEnd(text, i, 1023);
      ApplyAll(ApplyLine(cfg, text[i..j]), text, j)
  }

  datatype Loaded = NoHost | Loaded(cfg: Config)

  /** The checks after the last line. */
  function Checked(cfg: Config): Loaded {
    if cfg.host == "" then NoHost
    else
      Loaded(cfg.(port := if cfg.port == "" then (if cfg.tls != 0 then "563" else "119") else cfg.port,
                  maxConnections := if cfg.maxConnections < 1 then 1 else cfg.maxConnections,
                  maxRetries := if cfg.maxRetries < 0 then 0 else cfg.maxRetries))
  }

  // ----- what a text says -----

  datatype Pair = Pair(key: string, val: string)

  datatype Option<T> = None | Some(v: T)

  /** What a line sets: the part before its first equal sign to the part behind it. Nothing, if
      it is empty, a comment or without one. */
  ghost function Setting(line: string): Option<Pair> {
    var s := Trim(CString(line));
    if exists e: nat :: FirstEquals(s, e) && s[0] != '#' then
      var e: nat :| FirstEquals(s, e) && s[0] != '#';
      Some(Pair(Trim(s[..e]), Trim(s[e + 1..])))
    else None
  }

  predicate FirstEquals(s: string, e: nat) { e < |s| && s[e] == '=' && forall i :: 0 <= i < e ==> s[i] != '=' }

  /** The settings of the lines from `i` on. */
  ghost function Settings(text: string, i: nat): seq<Pair>
    requires i <= |text|
    decreases |text| - i
  {
    if i == |text| then []
    else
      var j := LineEnd(text, i, 1023);
      var x := Setting(text[i..j]);
      (if x.Some? then [x.v] else []) + Settings(text, j)
  }

  /** The value of the last setting of one of the keys. */
  function Last(es: seq<Pair>, keys: set<string>): Option<string> {
    if |es| == 0 then None
    else if es[|es| - 1].key in keys then Some(es[|es| - 1].val)
    else Last(es[..|es| - 1], keys)
  }

  lemma {:induction false} LastIs(es: seq<Pair>, keys: set<string>)
    ensures Last(es, keys).None? <==> forall i :: 0 <= i < |es| ==> es[i].key !in keys
    ensures Last(es, keys).Some? ==>
      exists i :: 0 <= i < |es| && es[i].key in keys && es[i].val == Last(es, keys).v
                  && forall j :: i < j < |es| ==> es[j].key !in keys
  {
    if |es| > 0 && es[|es| - 1].key !in keys { LastIs(es[..|es| - 1], keys); }
  }

  function Text(es: seq<Pair>, key: string, n: nat, default: string): string
    requires n > 0
  {
    var v := Last(es, {key});
    if v.Some? then Fit(v.v, n) else default
  }

  function Number(es: seq<Pair>, keys: set<string>, default: int): int {
    var v := Last(es, keys);
    if v.Some? then Atoi(v.v) else default
  }

  /** The result in terms of the settings: of every key the last one counts. Without a host there
      is none. Without a port it is 563 with TLS and 119 without. The limits are raised. */
  predicate Configured(r: Loaded, es: seq<Pair>) {
    var host, port, tls := Text(es, "host", 256, ""), Text(es, "port", 8, ""), Number(es, {"ssl", "tls"}, 0);
    if host == "" then r == NoHost
    else
      && r.Loaded? && r.cfg.host == host && r.cfg.tls == tls
      && r.cfg.port == (if port != "" then port else if tls == 0 then "119" else "563")
      && r.cfg.user == Text(es, "user", 128, "") && r.cfg.pass == Text(es, "pass", 128, "")
      && r.cfg.maxConnections == Max(1, Number(es, {"max_connections"}, 4))
      && r.cfg.maxRetries == Max(0, Number(es, {"max_retries"}, 3))
      && r.cfg.outputDir == Text(es, "output_dir", 512, "/data/games")
      && r.cfg.tempDir == Text(es, "temp_dir", 512, "/data/nzb-downloader/incomplete")
      && r.cfg.connectTimeout == 60 && r.cfg.readTimeout == 15 && r.cfg.retryCount == 5
  }

  /** The settings, one after the other. */
  ghost function Folded(cfg: Config, es: seq<Pair>): Config
    decreases |es|
  {
    if |es| == 0 then cfg else Folded(Apply(cfg, KeyOf(es[0].key), es[0].val), es[1..])
  }

  lemma EqualsIs(s: string)
    ensures Equals(s) < |s| <==> exists e: nat :: FirstEquals(s, e)
    ensures Equals(s) < |s| ==> FirstEquals(s, Equals(s))
  {
    EqualsFirst(s);
    if Equals(s) < |s| { assert FirstEquals(s, Equals(s)); }
  }

  lemma {:induction false} EqualsFirst(s: string)
    ensures forall i :: 0 <= i < Equals(s) ==> s[i] != '='
  {
    if |s| > 0 && s[0] != '=' { EqualsFirst(s[1..]); }
  }

  lemma LineSets(cfg: Config, line: string)
    ensures ApplyLine(cfg, line) ==
      var x := Setting(line); if x.Some? then Apply(cfg, KeyOf(x.v.key), x.v.val) else cfg
  {
    hide Trim, CString, Apply, Equals, KeyOf;
    EqualsIs(Trim(CString(line)));
  }

  lemma {:induction false} AllFolded(cfg: Config, text: string, i: nat)
    requires i <= |text|
    ensures ApplyAll(cfg, text, i) == Folded(cfg, Settings(text, i))
    decreases |text| - i
  {
    hide ApplyLine, Setting, Apply, KeyOf, LineEnd;
    if i < |text| {
      var j := LineEnd(text, i, 1023);
      LineSets(cfg, text[i..j]);
      AllFolded(ApplyLine(cfg, text[i..j]), text, j);
      var x, es := Setting(text[i..j]), Settings(text, j);
      if x.Some? {
        assert ([x.v] + es)[1..] == es;
      } else {
        assert [] + es == es;
      }
    }
  }

  lemma {:induction false} FoldedSnoc(cfg: Config, es: seq<Pair>, p: Pair)
    ensures Folded(cfg, es + [p]) == Apply(Folded(cfg, es), KeyOf(p.key), p.val)
    decreases |es|
  {
    hide Apply, KeyOf;
    if |es| == 0 {
      assert (es + [p])[1..] == [];
      assert Folded(Apply(cfg, KeyOf(p.key), p.val), []) == Apply(cfg, KeyOf(p.key), p.val);
    } else {
      assert (es + [p])[1..] == es[1..] + [p];
      FoldedSnoc(Apply(cfg, KeyOf(es[0].key), es[0].val), es[1..], p);
    }
  }

  /** What the settings make of the defaults. */
  function Made(es: seq<Pair>): Config {
    Config(Text(es, "host", 256, ""), Text(es, "port", 8, ""), Number(es, {"ssl", "tls"}, 0), Text(es, "user", 128, ""),
           Text(es, "pass", 128, ""), Number(es, {"max_connections"}, 4), 60, 15, 5,
           Text(es, "output_dir", 512, "/data/games"), Text(es, "temp_dir", 512, "/data/nzb-downloader/incomplete"),
           Number(es, {"max_retries"}, 3))
  }

  lemma LastSnoc(es: seq<Pair>, p: Pair, keys: set<string>)
    ensures Last(es + [p], keys) == if p.key in keys then Some(p.val) else Last(es, keys)
  {
    assert (es + [p])[..|es|] == es;
  }

  lemma TextSnoc(es: seq<Pair>, p: Pair, key: string, n: nat, default: string)
    requires n > 0
    ensures Text(es + [p], key, n, default) == if p.key == key then Fit(p.val, n) else Text(es, key, n, default)
  {
    hide Last;
    LastSnoc(es, p, {key});
  }

  lemma NumberSnoc(es: seq<Pair>, p: Pair, keys: set<string>, default: int)
    ensures Number(es + [p], keys, default) == if p.key in keys then Atoi(p.val) else Number(es, keys, default)
  {
    hide Last, Atoi;
    LastSnoc(es, p, keys);
  }

  lemma MadeSnoc(es: seq<Pair>, p: Pair)
    ensures Made(es + [p]) == Apply(Made(es), KeyOf(p.key), p.val)
  {
    hide Text, Number, Fit, Atoi;
    TextSnoc(es, p, "host", 256, "");
    TextSnoc(es, p, "port", 8, "");
    TextSnoc(es, p, "user", 128, "");
    TextSnoc(es, p, "pass", 128, "");
    TextSnoc(es, p, "output_dir", 512, "/data/games");
    TextSnoc(es, p, "temp_dir", 512, "/data/nzb-downloader/incomplete");
    NumberSnoc(es, p, {"ssl", "tls"}, 0);
    NumberSnoc(es, p, {"max_connections"}, 4);
    NumberSnoc(es, p, {"max_retries"}, 3);
  }

  lemma {:induction false} FoldedMade(es: seq<Pair>)
    ensures Folded(DEFAULTS, es) == Made(es)
    decreases |es|
  {
    if |es| == 0 {
    } else {
      hide Made, Apply, KeyOf;
      var z := |es| - 1;
      FoldedMade(es[..z]);
      FoldedSnoc(DEFAULTS, es[..z], es[z]);
      MadeSnoc(es[..z], es[z]);
      assert es == es[..z] + [es[z]];
    }
  }

  lemma LoadMeans(text: string)
    ensures Configured(Checked(ApplyAll(DEFAULTS, text, 0)), Settings(text, 0))
  {
    hide Settings, Text, Number, ApplyAll, Folded;
    AllFolded(DEFAULTS, text, 0);
    FoldedMade(Settings(text, 0));
  }

  /** app_config_load, for a file that could be opened. */
  method Load(text: string) returns (r: Loaded)
    ensures r == Checked(ApplyAll(DEFAULTS, text, 0)) && Configured(r, Settings(text, 0))
  {
    LoadMeans(text);
    hide Configured, Settings;
    hide Trim, CString, Apply, LineEnd, Equals;
    var cfg := DEFAULTS;
    var i := 0;
    while i < |text|
      invariant 0 <= i <= |text| && ApplyAll(DEFAULTS, text, 0) == ApplyAll(cfg, text, i)
      decreases |text| - i
    {
      var j := LineEnd(text, i, 1023);
      var line := TrimBuffer(CString(text[i..j]));
      i := j;
      if line == "" || line[0] == '#' { continue; }
      var eq := Equals(line);
      if eq == |line| { continue; }
      var key := TrimBuffer(line[..eq]);
      var val := TrimBuffer(line[eq + 1..]);
      cfg := Apply(cfg, KeyOf(key), val);
    }
    r := Checked(cfg);
  }

  // ----- writing -----

  function Entry(key: string, val: string): string { key + "=" + val + "\n" }

  function SavedText(es: seq<Pair>): string { if |es| == 0 then "" else Entry(es[0].key, es[0].val) + SavedText(es[1..]) }

  function Pairs(c: Config): seq<Pair> {
    [Pair("host", c.host), Pair("port", c.port), Pair("ssl", Print(c.tls)), Pair("user", c.user), Pair("pass", c.pass),
     Pair("max_connections", Print(c.maxConnections)), Pair("output_dir", c.outputDir), Pair("temp_dir", c.tempDir),
     Pair("max_retries", Print(c.maxRetries))]
  }

  /** app_config_save: one entry after the other. */
  function Save(c: Config): string { SavedText(Pairs(c)) }

  predicate CStr(s: string, n: nat) { |s| < n && '\0' !in s }

  /** A configuration as the struct can hold it. */
  predicate Held(c: Config) {
    && CStr(c.host, 256) && CStr(c.port, 8) && CStr(c.user, 128) && CStr(c.pass, 128)
    && CStr(c.outputDir, 512) && CStr(c.tempDir, 512)
    && Int32(c.tls) && Int32(c.maxConnections) && Int32(c.maxRetries)
  }

  predicate Plain(s: string) { NoNewline(s) && Tidy(s) }

  /** The configurations that survive being saved and loaded. */
  predicate Storable(c: Config) {
    && Plain(c.host) && Plain(c.port) && Plain(c.user) && Plain(c.pass) && Plain(c.outputDir) && Plain(c.tempDir)
    && c.host != "" && c.port != "" && c.maxConnections >= 1 && c.maxRetries >= 0
    && c.connectTimeout == 60 && c.readTimeout == 15 && c.retryCount == 5
  }

  // ----- lines -----

  lemma {:induction false} LineFound(text: string, i: nat, k: nat, n: nat)
    requires i <= k < |text| && text[k] == '\n' && (forall x :: i <= x < k ==> text[x] != '\n') && k - i < n
    ensures LineEnd(text, i, n) == k + 1
    decreases n
  {
    if i < k { LineFound(text, i + 1, k, n - 1); }
  }

  lemma {:induction false} CStringAll(s: string)
    requires '\0' !in s
    ensures CString(s) == s
  {
    if |s| > 0 {
      CStringAll(s[1..]);
      assert s == [s[0]] + s[1..];
    }
  }

  lemma {:induction false} EqualsAt(key: string, rest: string)
    requires '=' !in key
    ensures Equals(key + "=" + rest) == |key|
  {
    var s := key + "=" + rest;
    if |key| > 0 {
      EqualsAt(key[1..], rest);
      assert s[1..] == key[1..] + "=" + rest;
    }
  }

  /** A key that the reader can find again. */
  predicate GoodKey(key: string) {
    |key| > 0 && Tidy(key) && key[0] != '#' && '=' !in key && '\0' !in key && NoNewline(key)
  }

  lemma {:induction false} TrimRightPast(a: string, c: char, b: string)
    requires !IsSpace(c)
    ensures TrimRight(a + [c] + b) == a + [c] + TrimRight(b)
    decreases |b|
  {
    var s := a + [c] + b;
    if |b| > 0 && IsSpace(b[|b| - 1]) {
      TrimRightPast(a, c, b[..|b| - 1]);
      assert s[..|s| - 1] == a + [c] + b[..|b| - 1];
    } else if |b| == 0 {
      assert s == a + [c] && b == "";
      assert a + [c] + "" == a + [c];
    }
  }

  lemma {:induction false} TrimTwice(v: string)
    ensures Trim(TrimRight(v)) == Trim(v)
    decreases |v|
  {
    if |v| > 0 && IsSpace(v[|v| - 1]) {
      var u := v[..|v| - 1];
      TrimTwice(u);
      TrimSpace(u, v[|v| - 1]);
      assert v == u + [v[|v| - 1]];
    }
  }

  lemma {:induction false} TrimSpace(u: string, c: char)
    requires IsSpace(c)
    ensures Trim(u + [c]) == Trim(u)
    decreases |u|
  {
    var s := u + [c];
    if |u| > 0 && IsSpace(u[0]) {
      TrimSpace(u[1..], c);
      assert s[1..] == u[1..] + [c];
    } else if |u| == 0 {
      assert s == [c] && s[1..] == "";
    } else {
      assert s[..|s| - 1] == u;
    }
  }

  /** The line of an entry, trimmed. */
  lemma EntryLine(key: string, val: string)
    requires GoodKey(key) && '\0' !in val
    ensures Trim(CString(Entry(key, val))) == key + "=" + TrimRight(val)
    ensures Trim(key) == key && Trim(TrimRight(val)) == Trim(val)
  {
    hide Trim, TrimRight, CString;
    var line := Entry(key, val);
    CStringAll(line);
    TrimNewline(key, "=" + val);
    assert key + ("=" + val) + "\n" == line && key + ("=" + val) == key + ['='] + val;
    TrimRightPast(key, '=', val);
    assert key + ['='] + TrimRight(val) == key + "=" + TrimRight(val);
    TrimTidy(key);
    TrimTwice(val);
  }

  /** What an entry comes to when it is read. */
  lemma EntryApplies(cfg: Config, key: string, val: string)
    requires GoodKey(key) && '\0' !in val
    ensures ApplyLine(cfg, Entry(key, val)) == Apply(cfg, KeyOf(key), Trim(val))
    ensures Setting(Entry(key, val)) == Some(Pair(key, Trim(val)))
  {
    hide Trim, TrimRight, KeyOf, Apply, CString, Equals;
    EntryLine(key, val);
    var s := key + "=" + TrimRight(val);
    EqualsAt(key, TrimRight(val));
    assert s[..|key|] == key && s[|key| + 1..] == TrimRight(val);
    assert FirstEquals(s, |key|);
    LineSets(cfg, Entry(key, val));
  }

  /** A comment sets nothing, whatever follows the sign and whatever spaces stand before it. */
  lemma CommentSets(spaces: string, rest: string)
    requires forall i :: 0 <= i < |spaces| ==> IsSpace(spaces[i])
    ensures Setting(spaces + "#" + rest).None?
  {
    hide TrimRight;
    CommentStarts(spaces, rest);
    TrimRightKeeps(TrimLeft(CString(spaces + "#" + rest)));
  }

  lemma {:induction false} CommentStarts(spaces: string, rest: string)
    requires forall i :: 0 <= i < |spaces| ==> IsSpace(spaces[i])
    ensures var t := TrimLeft(CString(spaces + "#" + rest)); |t| > 0 && t[0] == '#'
  {
    var line := spaces + "#" + rest;
    if |spaces| > 0 {
      CommentStarts(spaces[1..], rest);
      assert line[1..] == spaces[1..] + "#" + rest;
      assert CString(line) == [line[0]] + CString(line[1..]);
      assert CString(line)[1..] == CString(line[1..]);
    }
  }

  /** One entry of a text. */
  lemma EntryRead(cfg: Config, text: string, i: nat, key: string, val: string, rest: string)
    requires i <= |text| && text[i..] == Entry(key, val) + rest
    requires GoodKey(key) && '\0' !in val && NoNewline(val) && |key| + |val| < 1000
    ensures i + |Entry(key, val)| <= |text| && text[i + |Entry(key, val)|..] == rest
    ensures ApplyAll(cfg, text, i) == ApplyAll(Apply(cfg, KeyOf(key), Trim(val)), text, i + |Entry(key, val)|)
  {
    hide Trim, KeyOf, Apply, ApplyLine, LineEnd;
    var e := Entry(key, val);
    var k := i + |e| - 1;
    assert forall x :: 0 <= x < |e| ==> text[i + x] == text[i..][x] == e[x];
    assert text[k] == e[|e| - 1] == '\n';
    forall x | i <= x < k ensures text[x] != '\n' { assert text[x] == e[x - i]; }
    LineFound(text, i, k, 1023);
    assert text[i..k + 1] == e by { assert text[i..k + 1] == text[i..][..|e|]; }
    EntryApplies(cfg, key, val);
    assert text[i + |e|..] == text[i..][|e|..];
  }

  predicate GoodPair(e: Pair) {
    GoodKey(e.key) && '\0' !in e.val && NoNewline(e.val) && |e.key| + |e.val| < 1000
  }

  function ApplyPairs(cfg: Config, es: seq<Pair>): Config
    decreases |es|
  {
    if |es| == 0 then cfg else ApplyPairs(Apply(cfg, KeyOf(es[0].key), Trim(es[0].val)), es[1..])
  }

  lemma {:induction false} PairsRead(cfg: Config, text: string, i: nat, es: seq<Pair>)
    requires i <= |text| && text[i..] == SavedText(es) && forall k :: 0 <= k < |es| ==> GoodPair(es[k])
    ensures ApplyAll(cfg, text, i) == ApplyPairs(cfg, es)
    decreases |es|
  {
    hide Trim, KeyOf, Apply, ApplyLine, LineEnd, Entry, GoodKey;
    if |es| > 0 {
      var e := es[0];
      assert GoodPair(e);
      EntryRead(cfg, text, i, e.key, e.val, SavedText(es[1..]));
      PairsRead(Apply(cfg, KeyOf(e.key), Trim(e.val)), text, i + |Entry(e.key, e.val)|, es[1..]);
    }
  }

  /** The configuration that comes back, if no newline is in the way; `d` is the default one. */
  function Reread(c: Config, d: Config): Config {
    Config(Fit(Trim(c.host), 256), Fit(Trim(c.port), 8), c.tls, Fit(Trim(c.user), 128), Fit(Trim(c.pass), 128),
           c.maxConnections, d.connectTimeout, d.readTimeout, d.retryCount,
           Fit(Trim(c.outputDir), 512), Fit(Trim(c.tempDir), 512), c.maxRetries)
  }

  lemma Keys()
    ensures KeyOf("host") == Host && KeyOf("port") == Port && KeyOf("ssl") == Tls && KeyOf("user") == User
    ensures KeyOf("pass") == Pass && KeyOf("max_connections") == MaxConnections
    ensures KeyOf("output_dir") == OutputDir && KeyOf("temp_dir") == TempDir && KeyOf("max_retries") == MaxRetries
  {
  }

  predicate Letters(key: string) { forall i :: 0 <= i < |key| ==> 'a' <= key[i] <= 'z' || key[i] == '_' }

  lemma LettersGood(key: string)
    requires |key| > 0 && Letters(key)
    ensures GoodKey(key)
  {
  }

  lemma ShortKeys()
    ensures GoodKey("host") && GoodKey("port") && GoodKey("ssl") && GoodKey("user") && GoodKey("pass")
  {
    hide GoodKey;
    LettersGood("host");
    LettersGood("port");
    LettersGood("ssl");
    LettersGood("user");
    LettersGood("pass");
  }

  lemma LongKeys()
    ensures GoodKey("max_connections") && GoodKey("output_dir") && GoodKey("temp_dir") && GoodKey("max_retries")
  {
    hide GoodKey;
    LettersGood("max_connections");
    LettersGood("output_dir");
    LettersGood("temp_dir");
    LettersGood("max_retries");
  }

  predicate Lines(c: Config) {
    && NoNewline(c.host) && NoNewline(c.port) && NoNewline(c.user) && NoNewline(c.pass)
    && NoNewline(c.outputDir) && NoNewline(c.tempDir)
  }

  lemma NumberPair(key: string, n: int)
    requires Int32(n) && GoodKey(key) && |key| < 100
    ensures GoodPair(Pair(key, Print(n))) && Atoi(Trim(Print(n))) == n
  {
    hide GoodKey, Atoi, Trim, PrintNat;
    AtoiPrint(n);
    PrintShort(n);
    TrimTidy(Print(n));
    forall k | 0 <= k < |Print(n)| ensures Print(n)[k] != '\0' { PrintChars(n, k); }
  }

  lemma PrintChars(n: int, k: nat)
    requires k < |Print(n)|
    ensures Print(n)[k] == '-' || IsDigit(Print(n)[k])
  {
    hide PrintNat;
  }

  lemma GoodPairs(c: Config)
    requires Held(c) && Lines(c)
    ensures forall k :: 0 <= k < |Pairs(c)| ==> GoodPair(Pairs(c)[k])
  {
    hide GoodKey, Print, Atoi, Trim;
    ShortKeys();
    LongKeys();
    NumberPair("ssl", c.tls);
    NumberPair("max_connections", c.maxConnections);
    NumberPair("max_retries", c.maxRetries);
    var es := Pairs(c);
    assert GoodPair(es[0]) && GoodPair(es[1]) && GoodPair(es[2]) && GoodPair(es[3]) && GoodPair(es[4]);
    assert GoodPair(es[5]) && GoodPair(es[6]) && GoodPair(es[7]) && GoodPair(es[8]);
  }

  lemma ApplyNext(cfg: Config, es: seq<Pair>, k: nat)
    requires k < |es|
    ensures ApplyPairs(cfg, es[k..]) == ApplyPairs(Apply(cfg, KeyOf(es[k].key), Trim(es[k].val)), es[k + 1..])
  {
    hide Trim, KeyOf, Apply;
    assert es[k..][1..] == es[k + 1..];
  }

  /** The first half of the entries, in the order of the file. */
  lemma PairsFirst(c: Config, d: Config)
    requires Held(c)
    ensures ApplyPairs(d, Pairs(c)) == ApplyPairs(
      d.(host := Fit(Trim(c.host), 256), port := Fit(Trim(c.port), 8), tls := c.tls, user := Fit(Trim(c.user), 128)),
      Pairs(c)[4..])
  {
    hide Trim, KeyOf, ApplyPairs, Fit, Print, Atoi, GoodKey, CStr;
    ShortKeys();
    Keys();
    NumberPair("ssl", c.tls);
    var es := Pairs(c);
    assert es[0..] == es;
    var c1 := d.(host := Fit(Trim(c.host), 256));
    ApplyNext(d, es, 0);
    var c2 := c1.(port := Fit(Trim(c.port), 8));
    ApplyNext(c1, es, 1);
    var c3 := c2.(tls := c.tls);
    ApplyNext(c2, es, 2);
    ApplyNext(c3, es, 3);
  }

  lemma PairsSecond(c: Config, d: Config)
    requires Held(c)
    ensures ApplyPairs(d, Pairs(c)[4..]) ==
      d.(pass := Fit(Trim(c.pass), 128), maxConnections := c.maxConnections, outputDir := Fit(Trim(c.outputDir), 512),
         tempDir := Fit(Trim(c.tempDir), 512), maxRetries := c.maxRetries)
  {
    hide Trim, KeyOf, ApplyPairs, Fit, Print, Atoi, GoodKey, CStr;
    LongKeys();
    Keys();
    NumberPair("max_connections", c.maxConnections);
    NumberPair("max_retries", c.maxRetries);
    var es := Pairs(c);
    assert es[9..] == [];
    var c5 := d.(pass := Fit(Trim(c.pass), 128));
    ApplyNext(d, es, 4);
    var c6 := c5.(maxConnections := c.maxConnections);
    ApplyNext(c5, es, 5);
    var c7 := c6.(outputDir := Fit(Trim(c.outputDir), 512));
    ApplyNext(c6, es, 6);
    var c8 := c7.(tempDir := Fit(Trim(c.tempDir), 512));
    ApplyNext(c7, es, 7);
    var c9 := c8.(maxRetries := c.maxRetries);
    ApplyNext(c8, es, 8);
    NothingLeft(c9);
  }

  lemma PairsApplied(c: Config, d: Config)
    requires Held(c)
    ensures ApplyPairs(d, Pairs(c)) == Reread(c, d)
  {
    hide Trim, ApplyPairs, Fit, Pairs;
    PairsFirst(c, d);
    PairsSecond(c, d.(host := Fit(Trim(c.host), 256), port := Fit(Trim(c.port), 8), tls := c.tls, user := Fit(Trim(c.user), 128)));
  }

  lemma NothingLeft(cfg: Config)
    ensures ApplyPairs(cfg, []) == cfg
  {
  }

  // ----- newlines never come back -----

  predicate LineLike(s: string) { forall k :: 0 <= k < |s| - 1 ==> s[k] != '\n' }

  lemma {:induction false} LineIs(text: string, i: nat, n: nat)
    requires i <= |text|
    ensures LineLike(text[i..LineEnd(text, i, n)])
    decreases n
  {
    if n > 0 && i < |text| && text[i] != '\n' {
      LineIs(text, i + 1, n - 1);
      var j := LineEnd(text, i + 1, n - 1);
      assert text[i..j] == [text[i]] + text[i + 1..j];
    }
  }

  lemma {:induction false} CStringLine(s: string)
    requires LineLike(s)
    ensures LineLike(CString(s)) && |CString(s)| <= |s| && CString(s) == s[..|CString(s)|]
  {
    if |s| > 0 && s[0] != '\0' {
      assert forall k :: 0 <= k < |s[1..]| - 1 ==> s[1..][k] == s[k + 1];
      CStringLine(s[1..]);
    }
  }

  lemma TrimLine(s: string)
    requires LineLike(s)
    ensures NoNewline(Trim(s))
  {
    TrimLeftKeeps(s);
    TrimRightKeeps(TrimLeft(s));
    var t := TrimLeft(s);
    var r := TrimRight(t);
    forall k | 0 <= k < |r| ensures r[k] != '\n' {
      assert r[k] == s[|s| - |t| + k];
      if |s| - |t| + k == |s| - 1 { assert r[|r| - 1] == r[k]; }
    }
  }

  lemma ApplyLineClean(cfg: Config, line: string)
    requires Lines(cfg) && LineLike(line)
    ensures Lines(ApplyLine(cfg, line))
  {
    hide Trim, CString, KeyOf, Equals;
    CStringLine(line);
    TrimLine(CString(line));
    var s := Trim(CString(line));
    if !(s == "" || s[0] == '#' || Equals(s) == |s|) {
      TrimTidy(s[Equals(s) + 1..]);
    }
  }

  lemma {:induction false} NewlinesGone(cfg: Config, text: string, i: nat)
    requires i <= |text| && Lines(cfg)
    ensures Lines(ApplyAll(cfg, text, i))
    decreases |text| - i
  {
    hide Lines, ApplyLine, LineEnd;
    if i < |text| {
      var j := LineEnd(text, i, 1023);
      LineIs(text, i, 1023);
      ApplyLineClean(cfg, text[i..j]);
      NewlinesGone(ApplyLine(cfg, text[i..j]), text, j);
    }
  }

  lemma FitsTidy(s: string, n: nat)
    requires |s| < n
    ensures Fit(Trim(s), n) == Trim(s) && (Trim(s) == s <==> Tidy(s))
  {
    hide Trim;
    TrimTidy(s);
  }

  /** Without newlines the rest of the condition decides. */
  lemma ReadBack(c: Config)
    requires Held(c) && Lines(c)
    ensures Checked(Reread(c, DEFAULTS)) == Loaded(c) <==> Storable(c)
  {
    hide Trim, Fit, NoNewline, Tidy;
    FitsTidy(c.host, 256);
    FitsTidy(c.port, 8);
    FitsTidy(c.user, 128);
    FitsTidy(c.pass, 128);
    FitsTidy(c.outputDir, 512);
    FitsTidy(c.tempDir, 512);
    EmptyTidy();
  }

  lemma EmptyTidy()
    ensures Trim("") == "" && Trim("563") == "563" && Trim("119") == "119"
  {
    hide Trim;
    TrimTidy("");
    TrimTidy("563");
    TrimTidy("119");
  }

  /** A configuration is read back as it was saved exactly if it is storable. */
  lemma RoundTrip(c: Config)
    requires Held(c)
    ensures Checked(ApplyAll(DEFAULTS, Save(c), 0)) == Loaded(c) <==> Storable(c)
  {
    hide Trim, Pairs, ApplyAll, NoNewline, Tidy, Reread, Checked, Held;
    var text := Save(c);
    if Lines(c) {
      GoodPairs(c);
      assert text[0..] == text;
      PairsRead(DEFAULTS, text, 0, Pairs(c));
      PairsApplied(c, DEFAULTS);
      ReadBack(c);
    } else {
      DefaultsClean();
      NewlinesGone(DEFAULTS, text, 0);
      CheckedClean(ApplyAll(DEFAULTS, text, 0));
    }
  }

  lemma DefaultsClean()
    ensures Lines(DEFAULTS)
  {
  }

  lemma CheckedClean(c: Config)
    requires Lines(c)
    ensures Checked(c).Loaded? ==> Lines(Checked(c).cfg)
  {
  }
}
