/** The client's view of the registry (src/common/RpcServerList.cpp): for every service the index of its
    servers, kept up to date by registry events. */
module RpcServerLists {
  import opened Options
  import opened ServerNodes
  import Registry

  /** For every service ever seen, its live servers by key. */
  type Servers = map<string, map<string, Address>>

  /** An event of the registry's watcher. `junk` is what the uninitialised variables of its callback hold. */
  datatype Event = Event(isPut: bool, key: string, value: string, junk: Address)

  function Known(s: Servers, service: string): map<string, Address> {
    if service in s then s[service] else map[]
  }

  function Upserted(s: Servers, service: string, a: Address): Servers {
    s[service := Known(s, service)[KeyOf(a.ip, a.port) := a]]
  }

  function Removed(s: Servers, service: string, ip: string, port: int): Servers {
    if service in s then s[service := s[service] - {KeyOf(ip, port)}] else s
  }

  function Reading(e: Event, parseCpu: string -> Option<real>): Registry.Reading {
    Registry.Understand(e.key, e.value, parseCpu, e.junk)
  }

  /** What an event does to a plain map of servers. */
  function Apply(s: Servers, e: Event, parseCpu: string -> Option<real>): Servers {
    match Reading(e, parseCpu)
    case Throws => s
    case Reads(n) =>
      if e.isPut then Upserted(s, n.service, n.address) else Removed(s, n.service, n.address.ip, n.address.port)
  }

  function ApplyAll(s: Servers, es: seq<Event>, parseCpu: string -> Option<real>): Servers {
    if es == [] then s else Apply(ApplyAll(s, es[..|es| - 1], parseCpu), es[|es| - 1], parseCpu)
  }

  /** A server of the service with the least load, or none in two ways: the service was never seen, or all
      its servers are gone and the source dereferences null. */
  ghost predicate Answers(s: Servers, service: string, ip: string, port: int, crash: bool) {
    && (crash <==> service in s && s[service] == map[])
    && (service !in s ==> ip == "" && port == -1)
    && (service in s && !crash ==>
         var live, key := s[service], KeyOf(ip, port);
         && key in live && live[key].ip == ip && live[key].port == port
         && forall k :: k in live ==> live[key].cpuUsage <= live[k].cpuUsage)
  }

  class RpcServerList {
    var serverList: map<string, ServerNodeManager>

    ghost function Managers(): set<ServerNodeManager>
      reads this
    {
      serverList.Values
    }

    ghost predicate Valid()
      reads this, Managers()
    {
      && (forall s :: s in serverList ==> serverList[s].Valid())
      && (forall s, t :: s in serverList && t in serverList && s != t ==> serverList[s] != serverList[t])
    }

    ghost function View(): Servers
      reads this, Managers()
    {
      map s | s in serverList :: serverList[s].Addresses()
    }

    constructor ()
      ensures Valid() && View() == map[] && Managers() == {}
    {
      serverList := map[];
    }

    method AddManager(service: string)
      requires Valid() && service !in serverList
      modifies this
      ensures Valid() && View() == old(View())[service := map[]] && serverList.Keys == old(serverList.Keys) + {service}
      ensures fresh(Managers() - old(Managers()))
    {
      hide ServerNodeManager.Valid, ServerNodeManager.Addresses;
      ghost var before := View();
      var manager := new ServerNodeManager();
      serverList := serverList[service := manager];
      assert View() == before[service := map[]];
    }

    method Upsert(service: string, a: Address)
      requires Valid()
      modifies this, Managers()
      ensures Valid() && View() == Upserted(old(View()), service, a)
      ensures fresh(Managers() - old(Managers()))
    {
      hide KeyOf, ServerNodeManager.Valid, ServerNodeManager.Addresses, RpcServerList.View;
      ViewHas(service);
      if service !in serverList {
        AddManager(service);
        KnownNow(old(View()), service, KeyOf(a.ip, a.port), a);
      }
      ViewHas(service);
      UpsertKnown(service, a);
    }

    lemma ViewHas(service: string)
      requires Valid()
      ensures service in View() <==> service in serverList
    {
    }

    method UpsertKnown(service: string, a: Address)
      requires Valid() && service in serverList
      modifies Managers()
      ensures Valid() && serverList == old(serverList)
      ensures service in old(View())
      ensures View() == old(View())[service := old(View())[service][KeyOf(a.ip, a.port) := a]]
    {
      hide KeyOf, ServerNodeManager.Valid, ServerNodeManager.Addresses;
      serverList[service].UpsertNode(a);
      assert forall s :: s in serverList && s != service ==> serverList[s] != serverList[service];
    }

    method Remove(service: string, ip: string, port: int) returns (found: bool)
      requires Valid()
      modifies Managers()
      ensures Valid() && serverList == old(serverList)
      ensures found == (KeyOf(ip, port) in Known(old(View()), service))
      ensures View() == Removed(old(View()), service, ip, port)
    {
      hide KeyOf, ServerNodeManager.Valid, ServerNodeManager.Addresses;
      if service !in serverList {
        return false;
      }
      found := serverList[service].RemoveNode(ip, port);
      assert forall s :: s in serverList && s != service ==> serverList[s] != serverList[service];
    }

    /** One event, whatever its entry holds; it throws exactly if the entry has a number that does not parse. */
    method OnEvent(e: Event, parseCpu: string -> Option<real>) returns (threw: bool)
      requires Valid()
      modifies this, Managers()
      ensures Valid() && View() == Apply(old(View()), e, parseCpu)
      ensures threw <==> Reading(e, parseCpu).Throws?
      ensures fresh(Managers() - old(Managers()))
    {
      hide KeyOf, Registry.Understand, Upserted, Removed, RpcServerList.Valid, RpcServerList.View;
      var reading := Registry.ParseUkv(e.key, e.value, parseCpu, e.junk);
      threw := reading.Throws?;
      if threw {
        return;
      }
      var n := reading.node;
      if e.isPut {
        Upsert(n.service, n.address);
      } else {
        var found := Remove(n.service, n.address.ip, n.address.port);
      }
    }

    /** The events of one watcher notification, in order; an exception ends the loop. */
    method OnEvents(events: seq<Event>, parseCpu: string -> Option<real>) returns (done: nat)
      requires Valid()
      modifies this, Managers()
      ensures Valid() && done <= |events|
      ensures View() == ApplyAll(old(View()), events[..done], parseCpu)
      ensures forall i :: 0 <= i < done ==> !Reading(events[i], parseCpu).Throws?
      ensures done < |events| ==> Reading(events[done], parseCpu).Throws?
      ensures fresh(Managers() - old(Managers()))
    {
      hide Apply, Reading, RpcServerList.Valid, RpcServerList.View;
      done := 0;
      while done < |events|
        invariant Valid() && done <= |events|
        invariant View() == ApplyAll(old(View()), events[..done], parseCpu)
        invariant forall i :: 0 <= i < done ==> !Reading(events[i], parseCpu).Throws?
        invariant fresh(Managers() - old(Managers()))
      {
        var threw := OnEvent(events[done], parseCpu);
        if threw {
          Unchanged(old(View()), events, done, parseCpu);
          return;
        }
        assert events[..done + 1][..done] == events[..done];
        done := done + 1;
      }
    }

    /** The address of a least loaded live server of the service, by the plain map. */
    method GetServerAddr(service: string) returns (ip: string, port: int, crash: bool)
      requires Valid()
      modifies Managers()
      ensures Valid() && serverList == old(serverList) && View() == old(View())
      ensures Answers(View(), service, ip, port, crash)
    {
      hide KeyOf, ServerNodeManager.Valid, ServerNodeManager.Addresses;
      if service !in serverList {
        return "", -1, false;
      }
      var manager := serverList[service];
      ghost var live := View()[service];
      assert live == manager.Addresses();
      var node := manager.GetLowestCPUNode();
      assert manager.Addresses() == live;
      assert forall s :: s in serverList && s != service ==> serverList[s] != manager;
      if node == null {
        return "", -1, true;
      }
      ip, port, crash := node.ip, node.port, false;
      assert live[node.Key()] == node.AsAddress();
    }
  }

  lemma KnownNow(s: Servers, service: string, key: string, a: Address)
    requires service !in s
    ensures s[service := map[]][service := map[][key := a]] == s[service := Known(s, service)[key := a]]
  {
  }

  lemma Unchanged(s: Servers, events: seq<Event>, done: nat, parseCpu: string -> Option<real>)
    requires done < |events| && Reading(events[done], parseCpu).Throws?
    ensures var t := ApplyAll(s, events[..done], parseCpu); Apply(t, events[done], parseCpu) == t
  {
  }

  // ---------------------------------------------------------------------------------------------
  // Registered servers are found
  // ---------------------------------------------------------------------------------------------

  /** A server of the library comes up with its load, or goes down; the watcher's event for the latter holds
      the value that was registered, or none. */
  datatype Change =
    | Up(service: string, ip: string, port: int, cpu: real, cpuText: string)
    | Down(service: string, ip: string, port: int, cpuText: string, hasValue: bool)

  predicate Plain(c: Change, parseCpu: string -> Option<real>) {
    && Registry.Plain(c.service, {'/'}) && Registry.Plain(c.ip, {'/', ':', '_'}) && Registry.Plain(c.cpuText, {'_'})
    && -0x8000_0000 <= c.port <= 0x7FFF_FFFF
    && parseCpu(c.cpuText).Some? && (c.Up? ==> parseCpu(c.cpuText) == Some(c.cpu))
  }

  function EventOf(baseDir: string, c: Change, junk: Address): Event {
    Event(c.Up?, Registry.RegisteredKey(baseDir, c.service, c.ip, c.port),
          if c.Down? && !c.hasValue then "" else Registry.RegisteredValue(c.ip, c.port, c.cpuText), junk)
  }

  function EventsOf(baseDir: string, cs: seq<Change>, junk: Address): (es: seq<Event>)
    ensures |es| == |cs|
  {
    seq(|cs|, i requires 0 <= i < |cs| => EventOf(baseDir, cs[i], junk))
  }

  /** The servers that are up, with their loads, if the events of servers going down hold their values. */
  type Cluster = map<(string, string, int), real>

  function After(m: Cluster, c: Change): Cluster {
    var id := (c.service, c.ip, c.port);
    if c.Up? then m[id := c.cpu] else if c.hasValue then m - {id} else m
  }

  function AfterAll(m: Cluster, cs: seq<Change>): Cluster {
    if cs == [] then m else After(AfterAll(m, cs[..|cs| - 1]), cs[|cs| - 1])
  }

  /** The plain map of servers holds exactly the servers of the cluster, each under the key of its address. */
  ghost predicate Agrees(s: Servers, m: Cluster) {
    && (forall service, key :: service in s && key in s[service] ==>
         var a := s[service][key];
         && a.ip != "" && key == KeyOf(a.ip, a.port)
         && (service, a.ip, a.port) in m && m[(service, a.ip, a.port)] == a.cpuUsage)
    && (forall id :: id in m ==>
         id.0 in s && KeyOf(id.1, id.2) in s[id.0] && s[id.0][KeyOf(id.1, id.2)] == Address(m[id], id.1, id.2))
  }

  /** Under a base directory of one component, the event of a server coming up upserts exactly that server under
      exactly its service, and that of one going down removes it, unless it comes without a value. */
  lemma EventIsUnderstood(s: Servers, baseDir: string, c: Change, junk: Address, parseCpu: string -> Option<real>)
    requires |Registry.Parts(baseDir, '/')| == 1 && Plain(c, parseCpu)
    ensures var e := EventOf(baseDir, c, junk);
      && !Reading(e, parseCpu).Throws?
      && Apply(s, e, parseCpu) ==
         if c.Up? then Upserted(s, c.service, Address(c.cpu, c.ip, c.port))
         else if c.hasValue then Removed(s, c.service, c.ip, c.port)
         else Removed(s, c.service, "", junk.port)
  {
    hide KeyOf, Registry.Understand, Registry.RegisteredKey, Registry.RegisteredValue, Upserted, Removed;
    var cpu := parseCpu(c.cpuText).value;
    Registry.RegistrationRoundTrip(baseDir, c.service, c.ip, c.port, cpu, c.cpuText, parseCpu, junk);
    Registry.KeyIsUnderstood(baseDir, c.service, c.ip, c.port);
    Registry.EmptyValue(Registry.RegisteredKey(baseDir, c.service, c.ip, c.port), parseCpu, junk);
  }

  lemma UpsertAgrees(s: Servers, m: Cluster, service: string, a: Address)
    requires Agrees(s, m) && a.ip != ""
    ensures Agrees(Upserted(s, service, a), m[(service, a.ip, a.port) := a.cpuUsage])
  {
    hide KeyOf;
    KeysDiffer(a.ip, a.port);
  }

  lemma RemoveAgrees(s: Servers, m: Cluster, service: string, ip: string, port: int)
    requires Agrees(s, m)
    ensures Agrees(Removed(s, service, ip, port), m - {(service, ip, port)})
  {
    hide KeyOf;
    KeysDiffer(ip, port);
  }

  lemma KeysDiffer(ip: string, port: int)
    ensures forall i, p :: KeyOf(i, p) == KeyOf(ip, port) ==> i == ip && p == port
  {
    hide KeyOf;
    forall i, p | KeyOf(i, p) == KeyOf(ip, port)
      ensures i == ip && p == port
    {
      KeyIsInjective(i, p, ip, port);
    }
  }

  /** Whatever sequence of servers coming up and going down the watcher reports, the client's view is the
      cluster: no server is missing, filed under another service, or left over. */
  lemma {:induction false} ViewIsCluster(baseDir: string, cs: seq<Change>, junk: Address,
                                         parseCpu: string -> Option<real>)
    requires |Registry.Parts(baseDir, '/')| == 1 && forall i :: 0 <= i < |cs| ==> Plain(cs[i], parseCpu)
    ensures Agrees(ApplyAll(map[], EventsOf(baseDir, cs, junk), parseCpu), AfterAll(map[], cs))
    decreases |cs|
  {
    hide Apply, Upserted, Removed, Agrees, EventOf, Reading, KeyOf;
    var es := EventsOf(baseDir, cs, junk);
    if cs == [] {
      assert Agrees(map[], map[]) by { NothingAgrees(); }
    } else {
      var n := |cs| - 1;
      ViewIsCluster(baseDir, cs[..n], junk, parseCpu);
      assert es[..n] == EventsOf(baseDir, cs[..n], junk);
      var s, m, c := ApplyAll(map[], es[..n], parseCpu), AfterAll(map[], cs[..n]), cs[n];
      EventIsUnderstood(s, baseDir, c, junk, parseCpu);
      if c.Up? {
        UpsertAgrees(s, m, c.service, Address(c.cpu, c.ip, c.port));
      } else if c.hasValue {
        RemoveAgrees(s, m, c.service, c.ip, c.port);
      } else {
        NoEmptyIp(s, m, c.service, junk.port);
      }
    }
  }

  /** The services the list knows are those of which a server has ever come up. */
  lemma {:induction false} KnownServices(baseDir: string, cs: seq<Change>, junk: Address,
                                         parseCpu: string -> Option<real>, service: string)
    requires |Registry.Parts(baseDir, '/')| == 1 && forall i :: 0 <= i < |cs| ==> Plain(cs[i], parseCpu)
    ensures service in ApplyAll(map[], EventsOf(baseDir, cs, junk), parseCpu) <==> EverUp(cs, service)
    decreases |cs|
  {
    hide Apply, EventOf, Reading, KeyOf;
    var es := EventsOf(baseDir, cs, junk);
    if cs != [] {
      var n := |cs| - 1;
      KnownServices(baseDir, cs[..n], junk, parseCpu, service);
      assert es[..n] == EventsOf(baseDir, cs[..n], junk);
      EventIsUnderstood(ApplyAll(map[], es[..n], parseCpu), baseDir, cs[n], junk, parseCpu);
      assert cs == cs[..n] + [cs[n]];
    }
  }

  ghost predicate EverUp(cs: seq<Change>, service: string) { exists c :: c in cs && c.Up? && c.service == service }

  lemma NothingAgrees()
    ensures Agrees(map[], map[])
  {
  }

  /** An event without a value removes nothing: the server that went down stays in the view. */
  lemma NoEmptyIp(s: Servers, m: Cluster, service: string, port: int)
    requires Agrees(s, m)
    ensures Removed(s, service, "", port) == s
  {
    hide KeyOf;
    KeysDiffer("", port);
    if service in s {
      assert KeyOf("", port) !in s[service];
      assert s[service] - {KeyOf("", port)} == s[service];
    }
  }

  /** So a lookup answers with a least loaded server of the cluster, whenever the service has one; without one it
      dereferences null if a server of it was ever up, and otherwise answers that there is none. */
  lemma LookupInCluster(baseDir: string, cs: seq<Change>, junk: Address, parseCpu: string -> Option<real>,
                        service: string, ip: string, port: int, crash: bool)
    requires |Registry.Parts(baseDir, '/')| == 1 && forall i :: 0 <= i < |cs| ==> Plain(cs[i], parseCpu)
    requires Answers(ApplyAll(map[], EventsOf(baseDir, cs, junk), parseCpu), service, ip, port, crash)
    ensures var m := AfterAll(map[], cs);
      if exists id :: id in m && id.0 == service then
        && !crash && (service, ip, port) in m
        && forall id :: id in m && id.0 == service ==> m[(service, ip, port)] <= m[id]
      else
        (crash <==> EverUp(cs, service)) && (!crash ==> ip == "" && port == -1)
  {
    hide KeyOf, ApplyAll, EventsOf;
    ViewIsCluster(baseDir, cs, junk, parseCpu);
    KnownServices(baseDir, cs, junk, parseCpu, service);
    var s, m := ApplyAll(map[], EventsOf(baseDir, cs, junk), parseCpu), AfterAll(map[], cs);
    if service in s && !crash {
      assert (service, ip, port) in m;
    }
  }

  /** After a server that was up is reported down, it has left the view exactly if that event held its value. */
  lemma GoneServerIsKept(baseDir: string, cs: seq<Change>, junk: Address, parseCpu: string -> Option<real>)
    requires |Registry.Parts(baseDir, '/')| == 1 && forall i :: 0 <= i < |cs| ==> Plain(cs[i], parseCpu)
    requires cs != [] && cs[|cs| - 1].Down?
    requires var c := cs[|cs| - 1]; (c.service, c.ip, c.port) in AfterAll(map[], cs[..|cs| - 1])
    ensures var c, s := cs[|cs| - 1], ApplyAll(map[], EventsOf(baseDir, cs, junk), parseCpu);
      c.service in s && KeyOf(c.ip, c.port) in s[c.service] <==> !c.hasValue
  {
    hide KeyOf, ApplyAll, EventsOf;
    ViewIsCluster(baseDir, cs, junk, parseCpu);
    var c, s := cs[|cs| - 1], ApplyAll(map[], EventsOf(baseDir, cs, junk), parseCpu);
    KeysDiffer(c.ip, c.port);
  }
}
