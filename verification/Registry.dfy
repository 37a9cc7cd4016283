/** The text format of registry entries: written by src/rpc/rpc_dispatcher.cpp, taken apart by `parseukv`
    in src/common/RpcServerList.cpp. */
module Registry {
  import opened Decimal
  import opened Options
  import opened ServerNodes

  function IndexOf(s: string, sep: char): (i: nat)
    ensures i <= |s| && (i < |s| ==> s[i] == sep) && forall k :: 0 <= k < i ==> s[k] != sep
  {
    if s == "" || s[0] == sep then 0 else 1 + IndexOf(s[1..], sep)
  }

  /** The non-empty parts between separators. */
  function Parts(s: string, sep: char): seq<string>
    decreases |s|
  {
    var i := IndexOf(s, sep);
    (if i == 0 then [] else [s[..i]]) + if i < |s| then Parts(s[i + 1..], sep) else []
  }

  /** `getline`: the characters from `from` to the next separator or the end. */
  method GetLine(s: string, sep: char, from: nat) returns (part: string, to: nat)
    requires from <= |s|
    ensures from <= to <= |s| && part == s[from..to]
    ensures (to < |s| ==> s[to] == sep) && forall k :: from <= k < to ==> s[k] != sep
  {
    part, to := "", from;
    while to < |s| && s[to] != sep
      invariant from <= to <= |s| && part == s[from..to]
      invariant forall k :: from <= k < to ==> s[k] != sep
    {
      part := part + [s[to]];
      to := to + 1;
    }
  }

  /** The loop that collects the non-empty parts. */
  method Split(s: string, sep: char) returns (parts: seq<string>)
    ensures parts == Parts(s, sep)
  {
    hide Parts;
    parts := [];
    var from := 0;
    assert s[0..] == s;
    while from < |s|
      invariant from <= |s|
      invariant Parts(s, sep) == parts + Parts(s[from..], sep)
    {
      ghost var before := parts;
      var part, to := GetLine(s, sep, from);
      PartsStep(s, sep, from, to);
      if part != "" {
        parts := parts + [part];
      }
      from := if to < |s| then to + 1 else to;
      assert Parts(s, sep) == before + ((if part == "" then [] else [part]) + Parts(s[from..], sep));
    }
    assert Parts(s[from..], sep) == [] by { NoParts(s[from..], sep); }
  }

  lemma NoParts(s: string, sep: char)
    requires s == ""
    ensures Parts(s, sep) == []
  {
  }

  /** One part and the rest, at any position. */
  lemma PartsStep(s: string, sep: char, from: nat, to: nat)
    requires from <= to <= |s| && (to < |s| ==> s[to] == sep) && forall k :: from <= k < to ==> s[k] != sep
    ensures Parts(s[from..], sep) ==
      (if from == to then [] else [s[from..to]]) + Parts(s[if to < |s| then to + 1 else to..], sep)
  {
    hide Parts, IndexOf;
    var r := s[from..];
    var i := to - from;
    assert forall k :: 0 <= k < |r| ==> r[k] == s[from + k];
    IndexIs(r, sep, i);
    PartsUnfolded(r, sep);
    assert r[..i] == s[from..to];
    if to < |s| {
      assert r[i + 1..] == s[to + 1..];
    } else {
      NoParts(s[to..], sep);
    }
  }

  lemma PartsUnfolded(r: string, sep: char)
    ensures var i := IndexOf(r, sep);
      Parts(r, sep) == (if i == 0 then [] else [r[..i]]) + if i < |r| then Parts(r[i + 1..], sep) else []
  {
    hide IndexOf;
  }

  lemma IndexIs(r: string, sep: char, i: nat)
    requires i <= |r| && (i < |r| ==> r[i] == sep) && forall k :: 0 <= k < i ==> r[k] != sep
    ensures IndexOf(r, sep) == i
  {
    hide IndexOf;
  }

  lemma {:induction false} PartsOfJoin(a: string, b: string, sep: char)
    ensures Parts(a + [sep] + b, sep) == Parts(a, sep) + Parts(b, sep)
    decreases |a|
  {
    hide Parts;
    var s, i := a + [sep] + b, IndexOf(a, sep);
    assert forall k :: 0 <= k < |a| ==> s[k] == a[k];
    PartsStep(s, sep, 0, i);
    PartsStep(a, sep, 0, i);
    assert s[0..] == s && a[0..] == a && s[0..i] == a[0..i];
    var head := if i == 0 then [] else [a[0..i]];
    if i < |a| {
      PartsOfJoin(a[i + 1..], b, sep);
      assert s[i + 1..] == a[i + 1..] + [sep] + b;
      assert Parts(s, sep) == head + (Parts(a[i + 1..], sep) + Parts(b, sep));
    } else {
      assert s[i + 1..] == b;
      NoParts(a[i..], sep);
    }
  }

  lemma PartsOfOne(a: string, sep: char)
    requires a != "" && sep !in a
    ensures Parts(a, sep) == [a]
  {
    assert IndexOf(a, sep) == |a|;
    assert a[..|a|] == a;
  }

  /** What an entry says: the service, and the address and load of a server of it. */
  datatype Node = Node(service: string, address: Address)

  /** `stod` or `stoi` throws; or what the callback's variables hold after `parseukv`. */
  datatype Reading = Throws | Reads(node: Node)

  /** `parseukv`, which returns early from an entry it cannot take apart. What it has not set by then is an
      empty string, or a number that was never initialised: one of `junk`. `parseCpu` stands for `stod`. */
  function Understand(key: string, value: string, parseCpu: string -> Option<real>, junk: Address): Reading {
    var k, v := Parts(key, '/'), Parts(value, '_');
    if |k| < 2 then Reads(Node("", Address(junk.cpuUsage, "", junk.port)))
    else if |v| != 2 then Reads(Node(k[1], Address(junk.cpuUsage, "", junk.port)))
    else
      var cpu, a := parseCpu(v[1]), Parts(v[0], ':');
      if cpu.None? then Throws
      else if |a| != 2 then Reads(Node(k[1], Address(cpu.value, v[0], junk.port)))
      else
        var port := ParseInt(a[1]);
        if port.None? then Throws else Reads(Node(k[1], Address(cpu.value, a[0], port.value)))
  }

  method ParseUkv(key: string, value: string, parseCpu: string -> Option<real>, junk: Address)
    returns (reading: Reading)
    ensures reading == Understand(key, value, parseCpu, junk)
  {
    hide Parts, ParseInt;
    var service, cpuUsage, ip, port := "", junk.cpuUsage, "", junk.port;
    var parts := Split(key, '/');
    if |parts| < 2 {
      return Reads(Node(service, Address(cpuUsage, ip, port)));
    }
    service := parts[1];
    parts := Split(value, '_');
    if |parts| != 2 {
      return Reads(Node(service, Address(cpuUsage, ip, port)));
    }
    ip := parts[0];
    var cpu := parseCpu(parts[1]);
    if cpu.None? {
      return Throws;
    }
    cpuUsage := cpu.value;
    parts := Split(ip, ':');
    if |parts| != 2 {
      return Reads(Node(service, Address(cpuUsage, ip, port)));
    }
    ip := parts[0];
    var number := ParseInt(parts[1]);
    if number.None? {
      return Throws;
    }
    port := number.value;
    return Reads(Node(service, Address(cpuUsage, ip, port)));
  }

  /** An entry without a value names its service and nothing else. */
  lemma EmptyValue(key: string, parseCpu: string -> Option<real>, junk: Address)
    ensures var k := Parts(key, '/');
      Understand(key, "", parseCpu, junk)
      == Reads(Node(if |k| < 2 then "" else k[1], Address(junk.cpuUsage, "", junk.port)))
  {
    NoParts("", '_');
  }

  /** The key and value that `registerService` writes. */
  function RegisteredKey(baseDir: string, service: string, ip: string, port: int): string {
    baseDir + "/" + service + "/" + ip + "-" + ToText(port)
  }

  function RegisteredValue(ip: string, port: int, cpuText: string): string {
    ip + ":" + ToText(port) + "_" + cpuText
  }

  /** Names that the format can carry. */
  predicate Plain(s: string, seps: set<char>) { s != "" && forall c :: c in s ==> c !in seps }

  lemma ValueIsUnderstood(ip: string, port: int, cpuText: string)
    requires Plain(ip, {':', '_'}) && Plain(cpuText, {'_'})
    ensures var v := Parts(RegisteredValue(ip, port, cpuText), '_');
      |v| == 2 && v[1] == cpuText && Parts(v[0], ':') == [ip, ToText(port)]
  {
    hide Parts, ToText;
    var a := ip + ":" + ToText(port);
    TextCharacters(port);
    PartsOfJoin(a, cpuText, '_');
    PartsOfOne(a, '_');
    PartsOfOne(cpuText, '_');
    PartsOfJoin(ip, ToText(port), ':');
    PartsOfOne(ip, ':');
    PartsOfOne(ToText(port), ':');
  }

  lemma KeyIsUnderstood(baseDir: string, service: string, ip: string, port: int)
    requires Plain(service, {'/'}) && Plain(ip, {'/'})
    ensures Parts(RegisteredKey(baseDir, service, ip, port), '/') ==
            Parts(baseDir, '/') + [service, ip + "-" + ToText(port)]
  {
    hide Parts, ToText;
    var last := ip + "-" + ToText(port);
    TextCharacters(port);
    assert '/' !in last;
    PartsOfOne(service, '/');
    PartsOfOne(last, '/');
    PartsOfJoin(service, last, '/');
    PartsOfJoin(baseDir, service + "/" + last, '/');
    JoinAgain(baseDir, service, ip, ToText(port));
    assert Parts(baseDir, '/') + ([service] + [last]) == Parts(baseDir, '/') + [service, last];
  }

  lemma JoinAgain(a: string, b: string, c: string, d: string)
    ensures a + "/" + b + "/" + c + "-" + d == a + "/" + (b + "/" + (c + "-" + d))
  {
  }

  /** Reading back what was registered. Address and load are always recovered. The service name is
      recovered exactly when the base directory has one component, or the part that is read in its place
      happens to equal it. */
  lemma RegistrationRoundTrip(baseDir: string, service: string, ip: string, port: int, cpu: real, cpuText: string,
                              parseCpu: string -> Option<real>, junk: Address)
    requires Plain(service, {'/'}) && Plain(ip, {'/', ':', '_'}) && Plain(cpuText, {'_'})
    requires parseCpu(cpuText) == Some(cpu) && -0x8000_0000 <= port <= 0x7FFF_FFFF
    ensures var b := Parts(baseDir, '/');
      var key, value := RegisteredKey(baseDir, service, ip, port), RegisteredValue(ip, port, cpuText);
      var reading := Understand(key, value, parseCpu, junk);
      && reading.Reads? && reading.node.address == Address(cpu, ip, port)
      && (reading.node.service == service <==>
           || |b| == 1
           || (|b| == 0 && service == ip + "-" + ToText(port))
           || (|b| >= 2 && b[1] == service))
  {
    hide Parts, ToText, ParseInt, RegisteredKey, RegisteredValue;
    KeyIsUnderstood(baseDir, service, ip, port);
    ValueIsUnderstood(ip, port, cpuText);
    ParseOfText(port);
  }

  /** The condition is needed: under a base directory with two components, the second of them is taken for
      the service. */
  lemma DeepBaseDirectoryHidesService(parseCpu: string -> Option<real>, junk: Address)
    requires parseCpu("0.5") == Some(0.5)
    ensures Understand(RegisteredKey("/rpc/prod", "Order", "10.0.0.1", 8000), RegisteredValue("10.0.0.1", 8000, "0.5"),
                       parseCpu, junk)
            == Reads(Node("prod", Address(0.5, "10.0.0.1", 8000)))
  {
    hide Parts, ToText, ParseInt, RegisteredKey, RegisteredValue;
    KeyIsUnderstood("/rpc/prod", "Order", "10.0.0.1", 8000);
    ValueIsUnderstood("10.0.0.1", 8000, "0.5");
    ParseOfText(8000);
    var rpc, prod := "/rpc", "prod";
    PartsOfJoin(rpc, prod, '/');
    PartsOfJoin("", "rpc", '/');
    NoParts("", '/');
    PartsOfOne("rpc", '/');
    PartsOfOne(prod, '/');
    assert "" + ['/'] + "rpc" == rpc && rpc + ['/'] + prod == "/rpc/prod";
  }

  /** What a registration looks like. */
  lemma SampleEntry()
    ensures RegisteredKey("/r", "Add", "h", 8) == "/r/Add/h-8" && RegisteredValue("h", 8, "0.5") == "h:8_0.5"
  {
    assert ToText(8) == "8";
  }

  lemma TwoParts(a: string, b: string, sep: char)
    requires a != "" && sep !in a && b != "" && sep !in b
    ensures Parts(a + [sep] + b, sep) == [a, b]
  {
    hide Parts;
    PartsOfJoin(a, b, sep);
    PartsOfOne(a, sep);
    PartsOfOne(b, sep);
  }

  /** Numbers in an entry of the right shape: both must parse. */
  lemma NumbersMustParse(key: string, ip: string, portText: string, cpuText: string, parseCpu: string -> Option<real>,
                         junk: Address)
    requires |Parts(key, '/')| >= 2
    requires Plain(ip, {':', '_'}) && Plain(portText, {':', '_'}) && Plain(cpuText, {'_'})
    ensures Understand(key, ip + ":" + portText + "_" + cpuText, parseCpu, junk) ==
      if parseCpu(cpuText).None? || ParseInt(portText).None? then Throws
      else Reads(Node(Parts(key, '/')[1], Address(parseCpu(cpuText).value, ip, ParseInt(portText).value)))
  {
    hide Parts, ParseInt;
    var a := ip + ":" + portText;
    assert '_' !in a;
    TwoParts(a, cpuText, '_');
    TwoParts(ip, portText, ':');
  }

  /** An address that is not two parts between colons is kept whole, and the port is whatever was there. */
  lemma WholeAddress(key: string, a: string, cpuText: string, parseCpu: string -> Option<real>, junk: Address)
    requires |Parts(key, '/')| >= 2 && Plain(a, {'_'}) && Plain(cpuText, {'_'}) && |Parts(a, ':')| != 2
    ensures Understand(key, a + "_" + cpuText, parseCpu, junk) ==
      if parseCpu(cpuText).None? then Throws
      else Reads(Node(Parts(key, '/')[1], Address(parseCpu(cpuText).value, a, junk.port)))
  {
    hide Parts, ParseInt;
    TwoParts(a, cpuText, '_');
  }

  /** A value of one part or of three leaves load, address and port unset. */
  lemma WrongNumberOfParts(key: string, a: string, b: string, c: string, parseCpu: string -> Option<real>,
                           junk: Address)
    requires |Parts(key, '/')| >= 2 && Plain(a, {'_'}) && Plain(b, {'_'}) && Plain(c, {'_'})
    ensures var unset := Reads(Node(Parts(key, '/')[1], Address(junk.cpuUsage, "", junk.port)));
      && Understand(key, a, parseCpu, junk) == unset
      && Understand(key, a + "_" + b + "_" + c, parseCpu, junk) == unset
  {
    hide Parts, ParseInt;
    PartsOfOne(a, '_');
    PartsOfOne(c, '_');
    TwoParts(a, b, '_');
    PartsOfJoin(a + "_" + b, c, '_');
  }

  /** A key of one part leaves everything unset, the service included, whatever the value. */
  lemma ShortKey(key: string, value: string, parseCpu: string -> Option<real>, junk: Address)
    requires Plain(key, {'/'})
    ensures Understand(key, value, parseCpu, junk) == Reads(Node("", Address(junk.cpuUsage, "", junk.port)))
  {
    PartsOfOne(key, '/');
  }
}
