/** The hosts file: printed by the supervisor as it starts the services
    (pkg/supervisor.go), parsed by the resolver (pkg/local_resolver.go). */
module Hosts {
  import opened DependencyOrder
  import opened Deployment
  import opened Strings

  datatype Entry = Entry(ip: string, host: string)

  // --------------------------------------------------------------------- parsing

  /** The entry of one line: up to the first tab the address, after it the host. */
  function ParseLine(line: string): Option<Entry> {
    var k := Index(line, '\t');
    if |line| > 0 && k > -1 then Some(Entry(line[..k], line[k + 1..])) else None
  }

  function ParseLines(lines: seq<string>): seq<Option<Entry>> {
    seq(|lines|, i requires 0 <= i < |lines| => ParseLine(lines[i]))
  }

  function Bind(m: map<string, string>, e: Option<Entry>): map<string, string> {
    if e.Some? then m[e.value.host := e.value.ip] else m
  }

  /** The bindings of a list of parsed lines, the last one for a host winning. */
  function BindAll(m: map<string, string>, es: seq<Option<Entry>>): map<string, string> {
    if es == [] then m else Bind(BindAll(m, es[..|es| - 1]), es[|es| - 1])
  }

  /** The table m after reading a hosts file. */
  function Read(m: map<string, string>, text: string): map<string, string> {
    BindAll(m, ParseLines(Split(text, '\n')))
  }

  lemma BindMore(m: map<string, string>, es: seq<Option<Entry>>, i: nat)
    requires i < |es|
    ensures BindAll(m, es[..i + 1]) == Bind(BindAll(m, es[..i]), es[i])
  {
    assert es[..i + 1][..i] == es[..i];
  }

  /** One line of the file. */
  method ReadLine(m: map<string, string>, line: string) returns (m': map<string, string>)
    ensures m' == Bind(m, ParseLine(line))
  {
    m' := m;
    var index := Index(line, '\t');
    if |line| > 0 && index > -1 {
      m' := m'[line[index + 1..] := line[..index]];
    }
  }

  class LocalResolver {
    var table: map<string, string>

    constructor ()
      ensures table == map[]
    {
      table := map[];
    }

    /** Entries of the file are added; what is gone from the file stays. An unreadable file changes nothing. */
    method Rebuild(file: Option<string>)
      modifies this
      ensures table == if file.Some? then Read(old(table), file.value) else old(table)
    {
      if file.None? {
        return;
      }
      var lines := Split(file.value, '\n');
      ghost var es := ParseLines(lines);
      for i := 0 to |lines|
        invariant table == BindAll(old(table), es[..i])
      {
        BindMore(old(table), es, i);
        table := ReadLine(table, lines[i]);
      }
      assert es[..|lines|] == es;
    }

    method Get(upstream: string) returns (ip: string)
      ensures ip == if upstream in table then table[upstream] else ""
    {
      if upstream in table {
        return table[upstream];
      }
      return "";
    }
  }

  // -------------------------------------------------------------------- printing

  /** The line printed for an entry. */
  function Line(e: Entry): string { e.ip + (['\t'] + e.host) }

  /** The text Start adds for one service. */
  function Print(e: Entry): string { ['\n'] + (Line(e) + ['\n']) }

  /** The text Start writes first: a line break and two lines. */
  function Header(gw: string): string {
    ['\n'] + (Line(Entry("127.0.0.1", "localhost")) + (['\n'] + Line(Entry(gw, "faasd-provider"))))
  }

  function PrintAll(es: seq<Entry>): string {
    if es == [] then "" else PrintAll(es[..|es| - 1]) + Print(es[|es| - 1])
  }

  /** The table m with the entries added, the last one for a host winning. */
  function Table(m: map<string, string>, es: seq<Entry>): map<string, string> {
    if es == [] then m else Table(m, es[..|es| - 1])[es[|es| - 1].host := es[|es| - 1].ip]
  }

  /** The address has no tab, and neither part has a line break. */
  predicate Printable(e: Entry) {
    '\t' !in e.ip && '\n' !in e.ip && '\n' !in e.host
  }

  // ------------------------------------------------------------------- round trip

  predicate OneLine(s: string) { '\n' !in s }

  /** The text with the given lines. */
  function Join(lines: seq<string>): string
    requires lines != []
  {
    if |lines| == 1 then lines[0] else lines[0] + (['\n'] + Join(lines[1..]))
  }

  /** Splitting a text gives back its lines. */
  lemma {:induction false} SplitJoin(lines: seq<string>)
    requires lines != [] && forall i :: 0 <= i < |lines| ==> OneLine(lines[i])
    ensures Split(Join(lines), '\n') == lines
  {
    if |lines| > 1 {
      SplitJoin(lines[1..]);
      SplitAt(lines[0], '\n', Join(lines[1..]));
      assert lines == [lines[0]] + lines[1..];
    }
  }

  lemma {:induction false} JoinMore(lines: seq<string>, line: string)
    requires lines != []
    ensures Join(lines + [line]) == Join(lines) + (['\n'] + line)
  {
    var all := lines + [line];
    assert all[0] == lines[0] && all[1..] == lines[1..] + [line];
    if |lines| == 1 {
      assert all[1..] == [line];
      assert Join(all[1..]) == line;
    } else {
      JoinMore(lines[1..], line);
      assert Join(all) == lines[0] + (['\n'] + (Join(lines[1..]) + (['\n'] + line)));
      assert Join(lines) == lines[0] + (['\n'] + Join(lines[1..]));
    }
  }

  lemma ParsedLine(e: Entry)
    requires Printable(e)
    ensures ParseLine(Line(e)) == Some(e) && OneLine(Line(e))
  {
    var line, k := Line(e), |e.ip|;
    assert line[..k] == e.ip && line[k] == '\t' && line[k + 1..] == e.host;
    IndexIs(line, '\t', k);
  }

  lemma Assoc<T>(a: seq<T>, b: seq<T>, c: seq<T>)
    ensures (a + b) + c == a + (b + c)
  {
  }

  /** Each printed entry adds its line and an empty one. */
  function PrintedLines(es: seq<Entry>): seq<string> {
    if es == [] then [] else PrintedLines(es[..|es| - 1]) + [Line(es[|es| - 1]), []]
  }

  lemma PrintAdds(lines: seq<string>, e: Entry)
    requires lines != []
    ensures Join(lines) + Print(e) == Join(lines + [Line(e), []])
  {
    JoinMore(lines, Line(e));
    JoinMore(lines + [Line(e)], []);
    assert lines + [Line(e)] + [[]] == lines + [Line(e), []];
    AddLine(Join(lines), Line(e));
  }

  lemma AddLine(t: string, l: string)
    ensures (t + (['\n'] + l)) + (['\n'] + []) == t + (['\n'] + (l + ['\n']))
  {
  }

  lemma {:induction false} PrintAllLines(lines: seq<string>, es: seq<Entry>)
    requires lines != []
    ensures Join(lines) + PrintAll(es) == Join(lines + PrintedLines(es))
  {
    var t := Join(lines);
    if es == [] {
      assert t + [] == t && lines + [] == lines;
    } else {
      var init, e := es[..|es| - 1], es[|es| - 1];
      var p, q := PrintAll(init), PrintedLines(init);
      PrintAllLines(lines, init);
      PrintAdds(lines + q, e);
      Assoc(lines, q, [Line(e), []]);
      Assoc(t, p, Print(e));
    }
  }

  /** What parsing makes of the printed lines. */
  function Parsed(es: seq<Entry>): seq<Option<Entry>> {
    if es == [] then [] else Parsed(es[..|es| - 1]) + [Some(es[|es| - 1]), None]
  }

  lemma ParseBlank()
    ensures ParseLine([]) == None && ParseLines([[]]) == [None]
  {
  }

  lemma ParsePair(a: string, b: string)
    ensures ParseLines([a, b]) == [ParseLine(a), ParseLine(b)]
  {
  }

  lemma {:induction false} ParsePrinted(es: seq<Entry>)
    requires forall i :: 0 <= i < |es| ==> Printable(es[i])
    ensures ParseLines(PrintedLines(es)) == Parsed(es)
    ensures forall i :: 0 <= i < |PrintedLines(es)| ==> OneLine(PrintedLines(es)[i])
  {
    if es != [] {
      var init, e := es[..|es| - 1], es[|es| - 1];
      ParsePrinted(init);
      ParsedLine(e);
      ParseConcat(PrintedLines(init), [Line(e), []]);
      ParsePair(Line(e), []);
    }
  }

  lemma ParseConcat(a: seq<string>, b: seq<string>)
    ensures ParseLines(a + b) == ParseLines(a) + ParseLines(b)
  {
  }

  lemma {:induction false} BindParsed(m: map<string, string>, ps: seq<Option<Entry>>, es: seq<Entry>)
    ensures BindAll(m, ps + Parsed(es)) == Table(BindAll(m, ps), es)
  {
    if es == [] {
      assert ps + [] == ps;
    } else {
      var init, e := es[..|es| - 1], es[|es| - 1];
      BindParsed(m, ps, init);
      Assoc(ps, Parsed(init), [Some(e), None]);
      BindTwo(m, ps + Parsed(init), e);
    }
  }

  lemma BindTwo(m: map<string, string>, ps: seq<Option<Entry>>, e: Entry)
    ensures BindAll(m, ps + [Some(e), None]) == BindAll(m, ps)[e.host := e.ip]
  {
    var all, n := ps + [Some(e), None], |ps|;
    assert all[..n + 1] == ps + [Some(e)];
    assert (ps + [Some(e)])[..n] == ps;
  }

  /** Reading a file that starts with some lines and goes on with printed
      entries: exactly those entries are added to what the first lines say, the
      last one for a host winning and nothing dropped. */
  lemma ReadPrinted(m: map<string, string>, lines: seq<string>, es: seq<Entry>)
    requires lines != [] && forall i :: 0 <= i < |lines| ==> OneLine(lines[i])
    requires forall i :: 0 <= i < |es| ==> Printable(es[i])
    ensures Read(m, Join(lines) + PrintAll(es)) == Table(BindAll(m, ParseLines(lines)), es)
  {
    PrintAllLines(lines, es);
    ParsePrinted(es);
    SplitJoin(lines + PrintedLines(es));
    ParseConcat(lines, PrintedLines(es));
    BindParsed(m, ParseLines(lines), es);
  }

  /** The lines of the text that Start writes first: an empty one and two entries. */
  function FirstLines(e: Entry, e': Entry): seq<string> { [[], Line(e), Line(e')] }

  lemma JoinFirst(e: Entry, e': Entry)
    ensures Join(FirstLines(e, e')) == ['\n'] + (Line(e) + (['\n'] + Line(e')))
  {
    var ls := FirstLines(e, e');
    assert ls[1..] == [Line(e), Line(e')] && [Line(e), Line(e')][1..] == [Line(e')];
    assert Join(ls[1..]) == Line(e) + (['\n'] + Line(e'));
  }

  lemma BindFirst(m: map<string, string>, e: Entry, e': Entry)
    requires Printable(e) && Printable(e')
    ensures BindAll(m, ParseLines(FirstLines(e, e'))) == m[e.host := e.ip][e'.host := e'.ip]
  {
    ParsedLine(e);
    ParsedLine(e');
    ParsePair(Line(e), Line(e'));
    ParseConcat([[]], [Line(e), Line(e')]);
    ParseBlank();
    assert [[]] + [Line(e), Line(e')] == FirstLines(e, e');
    assert [None] + [Some(e), Some(e')] == [None, Some(e), Some(e')];
    BindThree(m, e, e');
  }

  lemma BindThree(m: map<string, string>, e: Entry, e': Entry)
    ensures BindAll(m, [None, Some(e), Some(e')]) == m[e.host := e.ip][e'.host := e'.ip]
  {
    var ps: seq<Option<Entry>> := [None, Some(e), Some(e')];
    assert ps[..2] == [None, Some(e)] && [None, Some(e)][..1] == [None];
    var none: seq<Option<Entry>> := [None];
    assert none[..0] == [];
    assert BindAll(m, none) == m;
  }

  lemma FirstAreLines(e: Entry, e': Entry)
    requires Printable(e) && Printable(e')
    ensures forall i :: 0 <= i < |FirstLines(e, e')| ==> OneLine(FirstLines(e, e')[i])
  {
    LineIsOne(e);
    LineIsOne(e');
    ThreeLines([], Line(e), Line(e'));
  }

  lemma LineIsOne(e: Entry)
    requires OneLine(e.ip) && OneLine(e.host)
    ensures OneLine(Line(e))
  {
  }

  lemma ThreeLines(a: string, b: string, c: string)
    requires OneLine(a) && OneLine(b) && OneLine(c)
    ensures forall i :: 0 <= i < |[a, b, c]| ==> OneLine([a, b, c][i])
  {
  }

  lemma ReadAfterFirst(m: map<string, string>, e: Entry, e': Entry, es: seq<Entry>)
    requires Printable(e) && Printable(e') && forall i :: 0 <= i < |es| ==> Printable(es[i])
    ensures Read(m, Join(FirstLines(e, e')) + PrintAll(es)) == Table(m[e.host := e.ip][e'.host := e'.ip], es)
  {
    FirstAreLines(e, e');
    BindFirst(m, e, e');
    ReadPrinted(m, FirstLines(e, e'), es);
  }

  lemma HeaderIs(gw: string) returns (e: Entry, e': Entry)
    ensures e == Entry("127.0.0.1", "localhost") && e' == Entry(gw, "faasd-provider")
    ensures Header(gw) == Join(FirstLines(e, e'))
    ensures Printable(e) && OneLine(e'.host)
  {
    e, e' := Entry("127.0.0.1", "localhost"), Entry(gw, "faasd-provider");
    JoinFirst(e, e');
  }

  lemma LinesOfHeader(gw: string) returns (lines: seq<string>)
    requires OneLine(gw)
    ensures lines != [] && (forall i :: 0 <= i < |lines| ==> OneLine(lines[i])) && Header(gw) == Join(lines)
  {
    var e, e' := HeaderIs(gw);
    lines := FirstLines(e, e');
    LineIsOne(e);
    LineIsOne(e');
    ThreeLines([], Line(e), Line(e'));
  }

  /** Parsing what Start printed gives back exactly the two fixed entries and
      one entry per printed service. */
  lemma ReadStarted(m: map<string, string>, gw: string, es: seq<Entry>)
    requires '\t' !in gw && '\n' !in gw && forall i :: 0 <= i < |es| ==> Printable(es[i])
    ensures Read(m, Header(gw) + PrintAll(es)) ==
            Table(m["localhost" := "127.0.0.1"]["faasd-provider" := gw], es)
  {
    var e, e' := HeaderIs(gw);
    ReadAfterFirst(m, e, e', es);
  }

  // --------------------------------------------------------------------- start-up

  /** One started service and the hosts file as it is when it starts. */
  datatype Started = Started(name: string, file: string)

  function Entries(names: seq<string>, ip: map<string, string>): (es: seq<Entry>)
    requires forall i :: 0 <= i < |names| ==> names[i] in ip
    ensures |es| == |names| && forall i :: 0 <= i < |names| ==> es[i] == Entry(ip[names[i]], names[i])
  {
    seq(|names|, i requires 0 <= i < |names| => Entry(ip[names[i]], names[i]))
  }

  /** Different hosts do not overwrite each other. */
  lemma {:induction false} TableOfNames(m: map<string, string>, names: seq<string>, ip: map<string, string>)
    requires NoDup(names) && forall i :: 0 <= i < |names| ==> names[i] in ip
    ensures forall n :: n in names ==> n in Table(m, Entries(names, ip)) && Table(m, Entries(names, ip))[n] == ip[n]
  {
    if names != [] {
      var init := names[..|names| - 1];
      assert names == init + [names[|names| - 1]];
      TableOfNames(m, init, ip);
      assert Entries(names, ip)[..|names| - 1] == Entries(init, ip);
    }
  }

  predicate Addresses(svcs: seq<Service>, ip: map<string, string>) {
    forall i :: 0 <= i < |svcs| ==> svcs[i].name in ip && Printable(Entry(ip[svcs[i].name], svcs[i].name))
  }

  /** All dependencies of a started service have their address in its hosts file. */
  predicate DependenciesResolvable(svcs: seq<Service>, ip: map<string, string>, s: Started)
    requires Addresses(svcs, ip) && Distinct(svcs)
  {
    forall i, d :: 0 <= i < |svcs| && svcs[i].name == s.name && d in svcs[i].dependsOn ==>
      d in ip && d in Read(map[], s.file) && Read(map[], s.file)[d] == ip[d]
  }

  lemma AddressOf(svcs: seq<Service>, ip: map<string, string>, n: string)
    requires Addresses(svcs, ip) && n in ServiceNames(svcs)
    ensures n in ip && Printable(Entry(ip[n], n))
  {
    var i :| 0 <= i < |svcs| && ServiceNames(svcs)[i] == n;
  }

  lemma EarlierInTable(svcs: seq<Service>, ip: map<string, string>, order: seq<string>, k: nat, s: Started)
    requires Distinct(svcs) && Addresses(svcs, ip) && DependenciesFirst(svcs, order)
    requires k < |order| && s.name == order[k]
    requires forall n :: n in order[..k + 1] ==> n in ip && n in Read(map[], s.file) && Read(map[], s.file)[n] == ip[n]
    ensures DependenciesResolvable(svcs, ip, s)
  {
    var table := Read(map[], s.file);
    forall i, d | 0 <= i < |svcs| && svcs[i].name == order[k] && d in svcs[i].dependsOn
      ensures d in ip && d in table && table[d] == ip[d]
    {
      assert d in order[..k];
      assert d in order[..k + 1];
    }
  }

  /** The file printed for the services names gives each of them its address. */
  lemma PrintedResolve(lines: seq<string>, names: seq<string>, ip: map<string, string>)
    requires lines != [] && forall i :: 0 <= i < |lines| ==> OneLine(lines[i])
    requires NoDup(names) && forall i :: 0 <= i < |names| ==> names[i] in ip && Printable(Entry(ip[names[i]], names[i]))
    ensures var table := Read(map[], Join(lines) + PrintAll(Entries(names, ip)));
            forall n :: n in names ==> n in table && table[n] == ip[n]
  {
    var es := Entries(names, ip);
    ReadPrinted(map[], lines, es);
    TableOfNames(BindAll(map[], ParseLines(lines)), names, ip);
  }

  lemma StartedResolves(svcs: seq<Service>, lines: seq<string>, ip: map<string, string>, order: seq<string>, k: nat)
    requires Distinct(svcs) && Addresses(svcs, ip)
    requires lines != [] && forall i :: 0 <= i < |lines| ==> OneLine(lines[i])
    requires NoDup(order) && DependenciesFirst(svcs, order)
    requires k < |order| && forall i :: 0 <= i < |order| ==> order[i] in ip && order[i] in ServiceNames(svcs)
    ensures var file := Join(lines) + PrintAll(Entries(order[..k + 1], ip));
            DependenciesResolvable(svcs, ip, Started(order[k], file))
  {
    var names := order[..k + 1];
    forall i | 0 <= i < |names| ensures names[i] in ip && Printable(Entry(ip[names[i]], names[i])) {
      AddressOf(svcs, ip, order[i]);
    }
    PrintedResolve(lines, names, ip);
    EarlierInTable(svcs, ip, order, k, Started(order[k], Join(lines) + PrintAll(Entries(names, ip))));
  }

  lemma OrderNoDup(order: seq<string>, names: seq<string>)
    requires NoDup(names) && multiset(order) == multiset(names)
    ensures NoDup(order)
  {
    forall i, j | 0 <= i < j < |order| ensures order[i] != order[j] {
      NoDupOnce(names, order[j]);
      assert order == order[..j] + [order[j]] + order[j + 1..];
      assert multiset(order)[order[j]] == multiset(order[..j])[order[j]] + 1 + multiset(order[j + 1..])[order[j]];
      assert order[i] in multiset(order[..j]);
    }
  }

  /** Each started service is the next one of the order and finds its dependencies. */
  predicate StartedRight(svcs: seq<Service>, ip: map<string, string>, order: seq<string>, started: seq<Started>)
    requires Addresses(svcs, ip) && Distinct(svcs)
  {
    && |started| <= |order|
    && forall k :: 0 <= k < |started| ==>
         started[k].name == order[k] && DependenciesResolvable(svcs, ip, started[k])
  }

  lemma StartedMore(svcs: seq<Service>, ip: map<string, string>, order: seq<string>, started: seq<Started>, s: Started)
    requires Addresses(svcs, ip) && Distinct(svcs) && StartedRight(svcs, ip, order, started)
    requires |started| < |order| && s.name == order[|started|] && DependenciesResolvable(svcs, ip, s)
    ensures StartedRight(svcs, ip, order, started + [s])
  {
  }

  /** Where start-up fails: before the entry of service number at is written, or after it. */
  datatype Failure = NoFailure | Before(at: nat) | After(at: nat)

  function StartedCount(failure: Failure, n: nat): (k: nat)
    ensures failure.NoFailure? ==> k == n
    ensures !failure.NoFailure? ==> k <= failure.at && k <= n && (k == failure.at || k == n)
  {
    if failure.NoFailure? || failure.at >= n then n else failure.at
  }

  /** A service that fails after the write has an entry although it did not start. */
  function PrintedCount(failure: Failure, n: nat): (k: nat)
    ensures StartedCount(failure, n) <= k <= n
    ensures k != StartedCount(failure, n) <==> failure.After? && failure.at < n
    ensures k <= StartedCount(failure, n) + 1
  {
    if failure.After? && failure.at < n then failure.at + 1 else StartedCount(failure, n)
  }

  /** The loop over the start-up order, from a hosts file with the given lines. */
  method StartInOrder(svcs: seq<Service>, order: seq<string>, file: string, ghost lines: seq<string>,
                      ip: map<string, string>, failure: Failure)
    returns (hosts: string, started: seq<Started>)
    requires Distinct(svcs) && Addresses(svcs, ip)
    requires lines != [] && (forall i :: 0 <= i < |lines| ==> OneLine(lines[i])) && file == Join(lines)
    requires NoDup(order) && DependenciesFirst(svcs, order)
    requires forall i :: 0 <= i < |order| ==> order[i] in ip && order[i] in ServiceNames(svcs)
    ensures |started| == StartedCount(failure, |order|)
    ensures hosts == file + PrintAll(Entries(order[..PrintedCount(failure, |order|)], ip))
    ensures StartedRight(svcs, ip, order, started)
  {
    hosts, started := file, [];
    assert file + PrintAll([]) == file;
    for k := 0 to |order|
      invariant hosts == file + PrintAll(Entries(order[..k], ip))
      invariant |started| == k && (!failure.NoFailure? ==> k <= failure.at)
      invariant StartedRight(svcs, ip, order, started)
    {
      if failure == Before(k) {
        assert PrintedCount(failure, |order|) == k;
        return;
      }
      PrintNext(file, order, ip, k);
      hosts := hosts + Print(Entry(ip[order[k]], order[k]));
      if failure == After(k) {
        assert PrintedCount(failure, |order|) == k + 1;
        return;
      }
      StartedResolves(svcs, lines, ip, order, k);
      StartedMore(svcs, ip, order, started, Started(order[k], hosts));
      started := started + [Started(order[k], hosts)];
    }
    assert PrintedCount(failure, |order|) == |order|;
  }

  lemma PrintNext(file: string, order: seq<string>, ip: map<string, string>, k: nat)
    requires k < |order| && forall i :: 0 <= i < |order| ==> order[i] in ip
    ensures file + PrintAll(Entries(order[..k + 1], ip)) ==
            (file + PrintAll(Entries(order[..k], ip))) + Print(Entry(ip[order[k]], order[k]))
  {
    var es := Entries(order[..k + 1], ip);
    assert es[..k] == Entries(order[..k], ip);
  }

  lemma OrderFacts(svcs: seq<Service>, order: seq<string>, ip: map<string, string>)
    requires Distinct(svcs) && Addresses(svcs, ip) && multiset(order) == multiset(ServiceNames(svcs))
    ensures NoDup(order) && |order| == |svcs|
    ensures forall i :: 0 <= i < |order| ==> order[i] in ip && order[i] in ServiceNames(svcs)
  {
    OrderNoDup(order, ServiceNames(svcs));
    assert |order| == |multiset(order)| == |multiset(ServiceNames(svcs))|;
    forall i | 0 <= i < |order| ensures order[i] in ip && order[i] in ServiceNames(svcs) {
      assert order[i] in multiset(order);
      AddressOf(svcs, ip, order[i]);
    }
  }

  /** What Start leaves in the hosts file, printed for the first n services of
      the order, reads to the two fixed entries and the address of each of them. */
  lemma StartedTable(svcs: seq<Service>, gw: string, ip: map<string, string>, order: seq<string>, n: nat)
    requires Distinct(svcs) && Addresses(svcs, ip) && n <= |order| && '\t' !in gw && OneLine(gw)
    requires forall i :: 0 <= i < |order| ==> order[i] in ip && order[i] in ServiceNames(svcs)
    ensures var es := Entries(order[..n], ip);
            Read(map[], Header(gw) + PrintAll(es)) ==
            Table(map["localhost" := "127.0.0.1"]["faasd-provider" := gw], es)
  {
    var es := Entries(order[..n], ip);
    forall i | 0 <= i < |es| ensures Printable(es[i]) {
      AddressOf(svcs, ip, order[i]);
    }
    ReadStarted(map[], gw, es);
  }

  /** Start, with all reads and writes of the hosts file succeeding; ip gives
      the address the network assigns to each container, and the run ends early
      at a failure. Whatever is started finds the addresses of all its
      dependencies in the hosts file. */
  method Start(svcs: seq<Service>, gw: string, ip: map<string, string>, failure: Failure)
    returns (panicked: bool, hosts: string, started: seq<Started>, order: seq<string>)
    requires Distinct(svcs) && Addresses(svcs, ip) && OneLine(gw)
    ensures panicked <==> Broken(DepsOf(svcs))
    ensures panicked ==> started == [] && hosts == Header(gw)
    ensures !panicked ==> multiset(order) == multiset(ServiceNames(svcs)) && DependenciesFirst(svcs, order)
    ensures !panicked && failure.NoFailure? ==> |started| == |svcs|
    ensures !panicked ==> |started| == StartedCount(failure, |svcs|) && StartedRight(svcs, ip, order, started)
    ensures !panicked ==>
              && |order| == |svcs|
              && (forall i :: 0 <= i < |order| ==> order[i] in ip)
              && var es := Entries(order[..PrintedCount(failure, |svcs|)], ip);
                 && hosts == Header(gw) + PrintAll(es)
                 && ('\t' !in gw ==>
                       Read(map[], hosts) == Table(map["localhost" := "127.0.0.1"]["faasd-provider" := gw], es))
  {
    hosts, started := Header(gw), [];
    var ok;
    ok, order := BuildDeploymentOrder(svcs);
    panicked := !ok;
    if ok {
      OrderFacts(svcs, order, ip);
      ghost var lines := LinesOfHeader(gw);
      hosts, started := StartInOrder(svcs, order, hosts, lines, ip, failure);
      if '\t' !in gw {
        StartedTable(svcs, gw, ip, order, PrintedCount(failure, |svcs|));
      }
    }
  }
}
