/** The dialer of pkg/nico/net.go: connections to the comment server do not
    trust the system resolver (whose hosts file points the name back at
    this proxy); its address is looked up at 1.1.1.1 instead and cached for
    60 seconds. Other hosts are dialled as given. */
module NicoNet {
  import opened Common

  /** The one host whose address is looked up by hand. */
  const CommentHost: string := "nmsg.nicovideo.jp"

  /** How long a looked-up address is used, in nanoseconds (60 seconds). */
  const RefreshAfter: int := 60 * 1_000_000_000

  /** `time.Time{}` (January 1 of year 1, UTC) in nanoseconds since the
      Unix epoch: a cache entry that was never filled. */
  const ZeroTime: int := -62_135_596_800 * 1_000_000_000

  /** When the address was looked up, and the `ip:port` it gave. */
  datatype HostCache = HostCache(checked: int, addr: string)

  /** A record of a DNS answer: an A record with its address in dotted
      form, or a record of another type. */
  datatype DnsRecord = A(ip: string) | OtherRecord

  // ---------------------------------------------------------------- strings.Split

  /** `strings.Split(s, string(sep))`: the pieces between the separators,
      at least one, none holding the separator. */
  function Split(s: string, sep: char): (r: seq<string>)
    ensures |r| >= 1
    ensures forall k :: 0 <= k < |r| ==> sep !in r[k]
  {
    if s == [] then [[]]
    else
      var rest := Split(s[1..], sep);
      if s[0] == sep then [[]] + rest else [[s[0]] + rest[0]] + rest[1..]
  }

  /** `strings.Join(parts, string(sep))`. */
  function Join(parts: seq<string>, sep: char): string
  {
    if parts == [] then []
    else if |parts| == 1 then parts[0]
    else parts[0] + [sep] + Join(parts[1..], sep)
  }

  /** Joining the pieces gives back the string. */
  lemma {:induction false} JoinSplit(s: string, sep: char)
    ensures Join(Split(s, sep), sep) == s
  {
    if s != [] {
      var rest := Split(s[1..], sep);
      JoinSplit(s[1..], sep);
      if s[0] == sep {
        assert ([[]] + rest)[1..] == rest;
        assert s == [s[0]] + s[1..];
      } else {
        var r := [[s[0]] + rest[0]] + rest[1..];
        assert r[1..] == rest[1..];
        if |rest| == 1 {
          assert s == [s[0]] + s[1..];
        } else {
          assert Join(rest, sep) == rest[0] + [sep] + Join(rest[1..], sep);
          assert s[1..] == rest[0] + [sep] + Join(rest[1..], sep);
        }
      }
    }
  }

  /** Splitting what was joined gives back the pieces, when none of them
      holds the separator. */
  lemma {:induction false} SplitJoin(parts: seq<string>, sep: char)
    requires |parts| >= 1
    requires forall k :: 0 <= k < |parts| ==> sep !in parts[k]
    ensures Split(Join(parts, sep), sep) == parts
    decreases |parts|, |parts[0]|
  {
    var p := parts[0];
    if |parts| == 1 {
      if p != [] {
        SplitJoin([p[1..]], sep);
        SplitJoinLast(p, sep);
      }
    } else if p == [] {
      SplitJoin(parts[1..], sep);
      SplitJoinEmptyFirst(parts, sep);
    } else {
      var tail := [p[1..]] + parts[1..];
      assert tail[1..] == parts[1..];
      SplitJoin(tail, sep);
      SplitJoinFirst(parts, sep);
    }
  }

  /** The case of one non-empty piece, given the case of its tail. */
  lemma SplitJoinLast(p: string, sep: char)
    requires p != [] && sep !in p
    requires Split(Join([p[1..]], sep), sep) == [p[1..]]
    ensures Split(Join([p], sep), sep) == [p]
  {
    assert Join([p[1..]], sep) == p[1..];
    assert Join([p], sep) == p;
    assert p[0] != sep;
    assert Split(p, sep) == [[p[0]] + p[1..]];
    assert [p[0]] + p[1..] == p;
  }

  /** The case of an empty first piece, given the case of the others. */
  lemma SplitJoinEmptyFirst(parts: seq<string>, sep: char)
    requires |parts| >= 2 && parts[0] == []
    requires Split(Join(parts[1..], sep), sep) == parts[1..]
    ensures Split(Join(parts, sep), sep) == parts
  {
    var s := Join(parts, sep);
    assert s == [sep] + Join(parts[1..], sep);
    assert s[1..] == Join(parts[1..], sep);
    assert parts == [[]] + parts[1..];
  }

  /** The case of a non-empty first piece, given the case with its first
      character dropped. */
  lemma SplitJoinFirst(parts: seq<string>, sep: char)
    requires |parts| >= 2 && parts[0] != [] && sep !in parts[0]
    requires Split(Join([parts[0][1..]] + parts[1..], sep), sep) == [parts[0][1..]] + parts[1..]
    ensures Split(Join(parts, sep), sep) == parts
  {
    var p := parts[0];
    var tail := [p[1..]] + parts[1..];
    JoinDropFirst(parts, sep);
    SplitCons(p[0], Join(tail, sep), sep);
    assert [p[0]] + tail[0] == p;
    assert parts == [p] + parts[1..];
  }

  /** The first character of the first piece comes first in the join. */
  lemma JoinDropFirst(parts: seq<string>, sep: char)
    requires |parts| >= 2 && parts[0] != []
    ensures Join(parts, sep) == [parts[0][0]] + Join([parts[0][1..]] + parts[1..], sep)
  {
    var p := parts[0];
    var tail := [p[1..]] + parts[1..];
    assert tail[0] == p[1..] && tail[1..] == parts[1..];
    JoinCons(parts, sep);
    JoinCons(tail, sep);
    var j := Join(parts[1..], sep);
    assert p == [p[0]] + p[1..];
    assert p + [sep] + j == [p[0]] + (p[1..] + [sep] + j);
  }

  /** Joining two or more pieces puts a separator after the first. */
  lemma JoinCons(parts: seq<string>, sep: char)
    requires |parts| >= 2
    ensures Join(parts, sep) == parts[0] + [sep] + Join(parts[1..], sep)
  {
  }

  /** A character other than the separator joins the first piece. */
  lemma SplitCons(c: char, rest: string, sep: char)
    requires c != sep
    ensures Split([c] + rest, sep) == [[c] + Split(rest, sep)[0]] + Split(rest, sep)[1..]
  {
    assert ([c] + rest)[1..] == rest;
  }

  // ---------------------------------------------------------------- the dial

  /** One dial of `addr` against the cache `cache`: the address dialled
      and the cache afterwards. `now` is the clock when the entry is
      checked, `later` the clock after the lookup; `exchange` asks the DNS
      server for the A records of a name. The lookup's error is raised as a
      panic; an empty answer, a first record that is not an A record, and
      an `addr` without a port panic too, leaving the cache alone. */
  function Dial(cache: map<string, HostCache>, addr: string, now: int, later: int,
                exchange: string -> Result<seq<DnsRecord>, Error>): (Outcome<string>, map<string, HostCache>)
  {
    var address := Split(addr, ':');
    var host := address[0];
    if host !in cache then (Returned(addr), cache)
    else if now - cache[host].checked < RefreshAfter then (Returned(cache[host].addr), cache)
    else
      match exchange(host + ".")
      case Failure(e) => (Panicked(Raised(e)), cache)
      case Success(answer) =>
        if answer == [] then (Panicked(IndexOutOfRange), cache)
        else if !answer[0].A? then (Panicked(TypeAssertion), cache)
        else if |address| < 2 then (Panicked(IndexOutOfRange), cache)
        else
          var resolved := answer[0].ip + ":" + address[1];
          (Returned(resolved), cache[host := HostCache(later, resolved)])
  }

  /** The shared `http.Transport` of the package and its host cache. */
  class Transport {
    var hostCaches: map<string, HostCache>

    /** The cache starts with an entry for the comment server that was
        never filled, so the first dial looks it up. */
    constructor ()
      ensures hostCaches == map[CommentHost := HostCache(ZeroTime, "")]
    {
      hostCaches := map[CommentHost := HostCache(ZeroTime, "")];
    }

    /** `DialContext`, up to the address it dials. */
    method DialContext(addr: string, now: int, later: int,
                       exchange: string -> Result<seq<DnsRecord>, Error>)
      returns (out: Outcome<string>)
      modifies this
      ensures (out, hostCaches) == Dial(old(hostCaches), addr, now, later, exchange)
    {
      var address := Split(addr, ':');
      if address[0] in hostCaches {
        var d := hostCaches[address[0]];
        if now - d.checked >= RefreshAfter {
          var r := exchange(address[0] + ".");
          if r.Failure? {
            return Panicked(Raised(r.error));
          }
          if |r.value| == 0 {
            return Panicked(IndexOutOfRange);
          }
          if !r.value[0].A? {
            return Panicked(TypeAssertion);
          }
          if |address| < 2 {
            return Panicked(IndexOutOfRange);
          }
          var resolved := r.value[0].ip + ":" + address[1];
          hostCaches := hostCaches[address[0] := HostCache(later, resolved)];
          return Returned(resolved);
        } else {
          return Returned(d.addr);
        }
      }
      return Returned(addr);
    }
  }

  // ---------------------------------------------------------------- properties

  /** A dial touches at most the entry of its own host: the cached hosts
      stay the same, and every other entry is unchanged. A host outside the
      cache is dialled as given. */
  lemma DialFrame(cache: map<string, HostCache>, addr: string, now: int, later: int,
                  exchange: string -> Result<seq<DnsRecord>, Error>)
    ensures Dial(cache, addr, now, later, exchange).1.Keys == cache.Keys
    ensures forall h :: h in cache && h != Split(addr, ':')[0] ==>
              Dial(cache, addr, now, later, exchange).1[h] == cache[h]
    ensures Split(addr, ':')[0] !in cache ==> Dial(cache, addr, now, later, exchange) == (Returned(addr), cache)
  {
  }

  /** The entry of the comment server as the constructor leaves it is
      stale at any time after 1970, so the first dial always asks the DNS
      server. */
  lemma FirstDialLooksUp(port: string, now: int, later: int,
                         exchange: string -> Result<seq<DnsRecord>, Error>)
    requires ':' !in port
    requires now >= 0
    ensures var cache := map[CommentHost := HostCache(ZeroTime, "")];
            var answer := exchange(CommentHost + ".");
            answer.Success? && answer.value != [] && answer.value[0].A? ==>
              Dial(cache, CommentHost + ":" + port, now, later, exchange)
              == (Returned(answer.value[0].ip + ":" + port),
                  map[CommentHost := HostCache(later, answer.value[0].ip + ":" + port)])
  {
    assert ':' !in CommentHost;
    HostPort(CommentHost, port);
    var cache := map[CommentHost := HostCache(ZeroTime, "")];
    var addr := CommentHost + ":" + port;
    assert Split(addr, ':')[0] == CommentHost && Split(addr, ':')[1] == port;
    assert now - cache[CommentHost].checked >= RefreshAfter;
    var answer := exchange(CommentHost + ".");
    if answer.Success? && answer.value != [] && answer.value[0].A? {
      var resolved := answer.value[0].ip + ":" + port;
      assert Dial(cache, addr, now, later, exchange) == (Returned(resolved), cache[CommentHost := HostCache(later, resolved)]);
      assert cache[CommentHost := HostCache(later, resolved)] == map[CommentHost := HostCache(later, resolved)];
    }
  }

  /** After a successful lookup at time `later`, dials of the same host
      within 60 seconds use the cached address, whatever the DNS server
      would say, and leave the cache alone. */
  lemma CachedWithinRefresh(cache: map<string, HostCache>, addr: string, now: int, later: int,
                            exchange: string -> Result<seq<DnsRecord>, Error>,
                            addr2: string, now2: int, later2: int,
                            exchange2: string -> Result<seq<DnsRecord>, Error>)
    requires Dial(cache, addr, now, later, exchange).0.Returned?
    requires Split(addr, ':')[0] in cache && now - cache[Split(addr, ':')[0]].checked >= RefreshAfter
    requires Split(addr2, ':')[0] == Split(addr, ':')[0]
    requires later <= now2 < later + RefreshAfter
    ensures var (out, cache') := Dial(cache, addr, now, later, exchange);
            Dial(cache', addr2, now2, later2, exchange2) == (out, cache')
  {
  }

  /** An entry 60 seconds old or older is looked up again: the first A
      record's address with the request's port is dialled and stored with
      the time after the lookup. */
  lemma StaleRefreshes(cache: map<string, HostCache>, host: string, port: string, now: int, later: int,
                       exchange: string -> Result<seq<DnsRecord>, Error>)
    requires ':' !in host && ':' !in port
    requires host in cache && now - cache[host].checked >= RefreshAfter
    requires exchange(host + ".").Success? && exchange(host + ".").value != [] && exchange(host + ".").value[0].A?
    ensures var resolved := exchange(host + ".").value[0].ip + ":" + port;
            Dial(cache, host + ":" + port, now, later, exchange)
            == (Returned(resolved), cache[host := HostCache(later, resolved)])
  {
    HostPort(host, port);
  }

  /** For an entry due for a lookup, the dial panics exactly when the DNS
      exchange fails, its answer is empty, its first record is not an A
      record, or the address has no port; the exchange's error is the
      panic's value; and a dial that panics leaves the cache as it was. */
  lemma FailedLookupKeepsCache(cache: map<string, HostCache>, addr: string, now: int, later: int,
                               exchange: string -> Result<seq<DnsRecord>, Error>)
    requires Split(addr, ':')[0] in cache && now - cache[Split(addr, ':')[0]].checked >= RefreshAfter
    ensures var answer := exchange(Split(addr, ':')[0] + ".");
            Dial(cache, addr, now, later, exchange).0.Panicked?
            <==> answer.Failure? || answer.value == [] || !answer.value[0].A? || |Split(addr, ':')| < 2
    ensures var answer := exchange(Split(addr, ':')[0] + ".");
            answer.Failure? ==> Dial(cache, addr, now, later, exchange).0 == Panicked(Raised(answer.error))
    ensures Dial(cache, addr, now, later, exchange).0.Panicked? ==> Dial(cache, addr, now, later, exchange).1 == cache
  {
  }

  /** `host:port` splits into the host and the port. */
  lemma HostPort(host: string, port: string)
    requires ':' !in host && ':' !in port
    ensures Split(host + ":" + port, ':') == [host, port]
  {
    assert Join([host, port], ':') == host + ":" + port by {
      assert [host, port][1..] == [port];
    }
    SplitJoin([host, port], ':');
  }
}
