/** Writing and reading the configuration file, src/configfile.c, as a sequence
    of lines without their newlines. */
module ConfigFile {
  import opened CString
  import opened Prefs

  // ------------------------------------------------------------------ text

  const COLON: Byte := 0x3A
  const COMMA: Byte := 0x2C
  const HASH: Byte := 0x23
  const BRACKET: Byte := 0x5B
  const MAXNICKLEN := 32

  predicate White(c: Byte) { c == 32 || c == 9 || c == 13 || c == 10 }
  predicate IsSpace(c: Byte) { c == 32 || 9 <= c <= 13 }

  function TrimRight(s: Text, blank: Byte -> bool): Text {
    if s == [] || !blank(s[|s| - 1]) then s else TrimRight(s[..|s| - 1], blank)
  }

  function TrimLeft(s: Text, blank: Byte -> bool): Text {
    if s == [] || !blank(s[0]) then s else TrimLeft(s[1..], blank)
  }

  /** `wipespaces` */
  function Wiped(s: Text): Text { TrimLeft(TrimRight(s, White), White) }

  function Position(s: Text, c: Byte): (i: nat)               // `strchr`
    ensures i <= |s| && (i < |s| ==> s[i] == c) && forall k :: 0 <= k < i ==> s[k] != c
  {
    if s == [] || s[0] == c then 0 else 1 + Position(s[1..], c)
  }

  /** `tokenize`: the part before the first c, and what follows it if there is one. */
  function Token(s: Text, c: Byte): (Text, Option<Text>) {
    var t := TrimLeft(s, b => b == SPACE);
    var p := Position(t, c);
    if p < |t| then (t[..p], Some(t[p + 1..])) else (t, None)
  }

  /** `splitargs2`: at most ten trimmed parts of 78 bytes at most. */
  function Args(s: Text, room: nat): seq<Text>
    decreases room
  {
    if s == [] || room == 0 then []
    else
      var q := TrimLeft(s, IsSpace);
      var p := Position(q, COMMA);
      var t := TrimRight(q[..p], IsSpace);
      [if |t| > 78 then t[..78] else t] + if p < |q| then Args(q[p + 1..], room - 1) else []
  }

  const ULONG := 0x1_0000_0000

  /** `atoul`, on from acc */
  function AtoulFrom(acc: nat, s: Text): nat
    decreases |s|
  {
    if s != [] && 0x30 <= s[0] <= 0x39 then AtoulFrom((acc * 10 + (s[0] - 0x30)) % ULONG, s[1..]) else acc
  }

  function Atoul(s: Option<Text>): nat {
    match s case None => 0 case Some(t) => AtoulFrom(0, t)
  }

  /** Wrapping around at every digit comes to the same as doing so at the end. */
  lemma {:induction false} AtoulIs(acc: nat, s: Text)
    ensures AtoulFrom(acc % ULONG, s) == DigitsFrom(acc, s) % ULONG
    decreases |s|
  {
    if s != [] && 0x30 <= s[0] <= 0x39 {
      AtoulIs(acc * 10 + (s[0] - 0x30), s[1..]);
      WrapsAlong(acc, s[0] - 0x30);
    }
  }

  lemma WrapsAlong(acc: nat, k: nat)
    ensures (acc % ULONG * 10 + k) % ULONG == (acc * 10 + k) % ULONG
  {
    var q := acc / ULONG;
    assert acc * 10 + k == (acc % ULONG * 10 + k) + ULONG * (10 * q);
    WholeTurns(acc % ULONG * 10 + k, 10 * q);
  }

  lemma {:induction false} WholeTurns(a: nat, q: nat)
    ensures (a + ULONG * q) % ULONG == a % ULONG
  {
    if q > 0 {
      WholeTurns(a, q - 1);
      var b := a + ULONG * (q - 1);
      assert a + ULONG * q == b + ULONG && (b + ULONG) % ULONG == b % ULONG;
    }
  }

  lemma AtoulDecimal(n: nat)
    requires n < ULONG
    ensures Atoul(Some(Decimal(n))) == n
  {
    hide Decimal, DigitsFrom, AtoulFrom;
    AtoulIs(0, Decimal(n));
    DecimalRead(n, []);
    NoDigits(n);
    assert Decimal(n) + [] == Decimal(n);
  }

  // ---------------------------------------------------------- what is loaded

  datatype Server = Server(name: Text, port: nat)

  datatype Loaded = Loaded(servers: seq<Server>, irc: seq<Text>, utmp: seq<Text>, prefs: Tree)

  datatype Section = SERVERS | SETS | CHANNELS | IRCNOTIFY | UTMPNOTIFY

  const SERVERS_HEAD: Text := [91, 83, 69, 82, 86, 69, 82, 83, 93]                      // [SERVERS]
  const CHANNELS_HEAD: Text := [91, 67, 72, 65, 78, 78, 69, 76, 83, 93]                 // [CHANNELS]
  const SETS_HEAD: Text := [91, 83, 69, 84, 83, 93]                                     // [SETS]
  const IRC_HEAD: Text := [91, 73, 82, 67, 32, 78, 79, 84, 73, 70, 89, 93]              // [IRC NOTIFY]
  const UTMP_HEAD: Text := [91, 85, 84, 77, 80, 32, 78, 79, 84, 73, 70, 89, 93]         // [UTMP NOTIFY]
  const DEFAULT_PORT: Text :=                                                           // DEFAULT_SERVER_PORT
    [68, 69, 70, 65, 85, 76, 84, 95, 83, 69, 82, 86, 69, 82, 95, 80, 79, 82, 84]

  predicate HeadIs(line: Text, head: Text) { NCmp(line, head, |head|) == 0 }

  /** Which section a header line selects; a header of the section that is open
      already closes it. */
  function Header(line: Text, section: set<Section>): set<Section> {
    if HeadIs(line, SERVERS_HEAD) && SERVERS !in section then section + {SERVERS} - {CHANNELS, SETS, IRCNOTIFY, UTMPNOTIFY}
    else if HeadIs(line, CHANNELS_HEAD) && CHANNELS !in section then section + {CHANNELS} - {SERVERS, SETS, IRCNOTIFY, UTMPNOTIFY}
    else if HeadIs(line, SETS_HEAD) && SETS !in section then section + {SETS} - {SERVERS, CHANNELS, IRCNOTIFY, UTMPNOTIFY}
    else if HeadIs(line, IRC_HEAD) && IRCNOTIFY !in section then section + {IRCNOTIFY} - {SERVERS, CHANNELS, SETS, UTMPNOTIFY}
    else if HeadIs(line, UTMP_HEAD) && UTMPNOTIFY !in section then section + {UTMPNOTIFY} - {SERVERS, CHANNELS, SETS, IRCNOTIFY}
    else section - {SERVERS, SETS, CHANNELS, IRCNOTIFY, UTMPNOTIFY}
  }

  /** `AddtoServersList` */
  function AddServer(ss: seq<Server>, name: Text, port: nat): seq<Server> {
    if exists i :: 0 <= i < |ss| && Same(ss[i].name, name) && ss[i].port == port then ss else ss + [Server(name, port)]
  }

  /** `AddtoNotify`, for the parts of one line */
  function AddNames(ns: seq<Text>, parts: seq<Text>): seq<Text>
    decreases |parts|
  {
    if parts == [] then ns
    else
      var p := parts[0];
      AddNames(if |p| > MAXNICKLEN || (exists i :: 0 <= i < |ns| && Same(p, ns[i])) then ns else ns + [p], parts[1..])
  }

  /** `ActuallyProcess` */
  function Processed(l: Loaded, section: set<Section>, line: Text): Loaded {
    if SERVERS in section then
      var t := Token(line, COLON);
      var default := match Find(l.prefs, DEFAULT_PORT) case Some(e) => e.value case None => None;
      l.(servers := AddServer(l.servers, t.0, Atoul(if t.1.Some? then t.1 else default)))
    else if CHANNELS in section then l
    else if IRCNOTIFY in section then l.(irc := AddNames(l.irc, Args(line, 10)))
    else if UTMPNOTIFY in section then l.(utmp := AddNames(l.utmp, Args(line, 10)))
    else if SETS in section then
      var t := Token(line, SPACE);
      if t.1.None? then l else l.(prefs := Set(l.prefs, t.0, Wiped(t.1.value)))
    else l
  }

  // ------------------------------------------------------ reading line by line

  /** The bytes of a file that are still to be read, newlines included. */
  function Size(file: seq<Text>): nat {
    if file == [] then 0 else |file[0]| + 1 + Size(file[1..])
  }

  /** `fgets(line, 79, fp)`: 78 bytes at most, so that the rest of a longer line is
      read as a line of its own. */
  function Fgets(file: seq<Text>): (r: (Text, seq<Text>))
    requires file != []
    ensures |r.0| <= 78 && Size(r.1) < Size(file)
  {
    if |file[0]| >= 78 then
      var rest := [file[0][78..]] + file[1..];
      assert rest[1..] == file[1..];
      (file[0][..78], rest)
    else (file[0], file[1..])
  }

  /** What the calls of `fgets` return, one after the other. */
  function Chopped(file: seq<Text>): seq<Text>
    decreases Size(file)
  {
    if file == [] then [] else [Fgets(file).0] + Chopped(Fgets(file).1)
  }

  predicate Short(file: seq<Text>) {
    forall i :: 0 <= i < |file| ==> |file[i]| <= 78
  }

  /** The loop of `ProcessConfigfile`, over what `fgets` returns. */
  function Process(l: Loaded, section: set<Section>, lines: seq<Text>): (Loaded, set<Section>)
    decreases |lines|
  {
    if lines == [] then (l, section)
    else
      var line := Wiped(lines[0]);
      if line == [] || line[0] == HASH then Process(l, section, lines[1..])
      else if line[0] == BRACKET then Process(l, Header(line, section), lines[1..])
      else Process(Processed(l, section, line), section, lines[1..])
  }

  /** At most one section is ever open, whatever the file holds. */
  lemma {:induction false} OneSection(l: Loaded, section: set<Section>, lines: seq<Text>)
    requires |section| <= 1
    ensures |Process(l, section, lines).1| <= 1
    decreases |lines|
  {
    hide HeadIs;
    if lines != [] {
      var line := Wiped(lines[0]);
      if line == [] || line[0] == HASH {
        OneSection(l, section, lines[1..]);
      } else if line[0] == BRACKET {
        HeaderOne(line, section);
        OneSection(l, Header(line, section), lines[1..]);
      } else {
        OneSection(Processed(l, section, line), section, lines[1..]);
      }
    }
  }

  lemma HeaderOne(line: Text, section: set<Section>)
    ensures |Header(line, section)| <= 1
  {
    hide HeadIs;
    var h := Header(line, section);
    forall x, y | x in h && y in h ensures x == y {
      match x { case SERVERS => case SETS => case CHANNELS => case IRCNOTIFY => case UTMPNOTIFY => }
      match y { case SERVERS => case SETS => case CHANNELS => case IRCNOTIFY => case UTMPNOTIFY => }
    }
    if h != {} {
      var x :| x in h;
      assert h == {x};
    }
  }

  lemma {:induction false} ProcessApart(l: Loaded, section: set<Section>, a: seq<Text>, b: seq<Text>)
    ensures Process(l, section, a + b) == Process(Process(l, section, a).0, Process(l, section, a).1, b)
    decreases |a|
  {
    hide Processed, Header, Wiped;
    if a == [] {
      assert a + b == b;
    } else {
      assert (a + b)[1..] == a[1..] + b;
      var line := Wiped(a[0]);
      if line == [] || line[0] == HASH { ProcessApart(l, section, a[1..], b); }
      else if line[0] == BRACKET { ProcessApart(l, Header(line, section), a[1..], b); }
      else { ProcessApart(Processed(l, section, line), section, a[1..], b); }
    }
  }

  /** Lines of 78 bytes at most are read as they are; after one of just 78 bytes
      an empty line is read. */
  lemma {:induction false} ShortIsWhole(l: Loaded, section: set<Section>, file: seq<Text>)
    requires Short(file)
    ensures Process(l, section, Chopped(file)) == Process(l, section, file)
    decreases |file|
  {
    hide Processed, Header, Wiped, Process;
    if file != [] {
      var one, rest := [file[0]], file[1..];
      assert file == one + rest;
      var r := Process(l, section, one);
      ProcessApart(l, section, one, rest);
      ShortIsWhole(r.0, r.1, rest);
      ProcessApart(l, section, one, Chopped(rest));
      if |file[0]| == 78 {
        var blank: seq<Text> := [[]];
        Blank78(file);
        EmptyLine(r.0, r.1);
        ProcessApart(l, section, one + blank, Chopped(rest));
        ProcessApart(l, section, one, blank);
      } else {
        assert Chopped(file) == one + Chopped(rest);
      }
    }
  }

  lemma Blank78(file: seq<Text>)
    requires file != [] && |file[0]| == 78
    ensures var blank: seq<Text> := [[]]; Chopped(file) == ([file[0]] + blank) + Chopped(file[1..])
  {
    var rest := [file[0][78..]] + file[1..];
    assert file[0][..78] == file[0];
    assert rest[0] == [] && rest[1..] == file[1..];
    assert Chopped(rest) == [[]] + Chopped(file[1..]);
  }

  // ------------------------------------------------------------- what is saved

  function ServerLines(ss: seq<Server>): seq<Text> {
    if ss == [] then [] else [[SPACE] + (ss[0].name + [COLON] + Decimal(ss[0].port))] + ServerLines(ss[1..])
  }

  function NameLines(ns: seq<Text>): seq<Text> {
    if ns == [] then [] else [[SPACE] + ns[0]] + NameLines(ns[1..])
  }

  /** `PrintSETEntries` */
  function SetLines(t: Tree): seq<Text> {
    match t
    case Leaf => []
    case Node(l, e, r) => SetLines(l) + SetLine(e) + SetLines(r)
  }

  function SetLine(p: Pref): seq<Text> {
    match p.value case None => [] case Some(_) => [LineOf(p)]
  }

  function LineOf(p: Pref): Text
    requires p.value.Some?
  {
    [SPACE] + (p.name + [SPACE] + p.value.value)
  }

  function WriteServers(ss: seq<Server>): seq<Text> {
    [SERVERS_HEAD] + if ss == [] then [] else ServerLines(ss) + [[]]
  }

  function WriteSets(t: Tree): seq<Text> {
    [[], SETS_HEAD] + (SetLines(t) + [[]])
  }

  function WriteNames(head: Text, ns: seq<Text>): seq<Text> {
    [[], head] + if ns == [] then [] else NameLines(ns) + [[]]
  }

  /** The whole file, behind its leading comments. */
  function Written(c: Loaded, comments: seq<Text>): seq<Text> {
    comments + (WriteServers(c.servers) + (WriteSets(c.prefs) + (WriteNames(IRC_HEAD, c.irc) + WriteNames(UTMP_HEAD, c.utmp))))
  }

  // --------------------------------------------------------- well-formedness

  predicate Trimmed(s: Text) {
    s != [] && !White(s[0]) && !White(s[|s| - 1])
  }

  predicate Word(s: Text) {
    Trimmed(s) && s[0] != HASH && s[0] != BRACKET
  }

  predicate GoodServer(s: Server) {
    Word(s.name) && COLON !in s.name && s.port < ULONG
  }

  predicate GoodName(n: Text) {
    Word(n) && !IsSpace(n[0]) && !IsSpace(n[|n| - 1]) && COMMA !in n && |n| < MAXNICKLEN
  }

  predicate GoodPref(p: Pref) {
    p.value.Some? ==> Word(p.name) && SPACE !in p.name && Trimmed(p.value.value) && Fits(p.level, p.value.value)
  }

  predicate ServersApart(ss: seq<Server>) {
    forall i, j :: 0 <= i < j < |ss| ==> !(Same(ss[i].name, ss[j].name) && ss[i].port == ss[j].port)
  }

  predicate NamesApart(ns: seq<Text>) {
    forall i, j :: 0 <= i < j < |ns| ==> !Same(ns[j], ns[i])
  }

  predicate Comment(s: Text) {
    Wiped(s) == [] || Wiped(s)[0] == HASH
  }

  predicate WellFormed(c: Loaded) {
    && (forall s :: s in c.servers ==> GoodServer(s)) && ServersApart(c.servers)
    && (forall n :: n in c.irc ==> GoodName(n)) && NamesApart(c.irc)
    && (forall n :: n in c.utmp ==> GoodName(n)) && NamesApart(c.utmp)
    && (forall p :: p in Inorder(c.prefs) ==> GoodPref(p)) && Ordered(c.prefs)
  }

  // ------------------------------------------------------------ line by line

  lemma WipedLine(w: Text)
    requires Trimmed(w)
    ensures Wiped([SPACE] + w) == w && Wiped(w) == w
  {
    var s := [SPACE] + w;
    assert s[|s| - 1] == w[|w| - 1] && s[1..] == w;
    assert TrimLeft(s, White) == TrimLeft(s[1..], White);
  }

  lemma ProcessOne(l: Loaded, section: set<Section>, w: Text)
    requires Word(w)
    ensures Process(l, section, [[SPACE] + w]) == (Processed(l, section, w), section)
  {
    hide Processed, Wiped;
    WipedLine(w);
    ProcessNone(Processed(l, section, w), section);
    assert [[SPACE] + w][1..] == [];
  }

  lemma ProcessNone(l: Loaded, section: set<Section>)
    ensures Process(l, section, []) == (l, section)
  {}

  lemma {:induction false} PositionIs(s: Text, c: Byte, i: nat)
    requires i <= |s| && (i < |s| ==> s[i] == c) && forall k :: 0 <= k < i ==> s[k] != c
    ensures Position(s, c) == i
  {}

  lemma TokenOf(a: Text, c: Byte, b: Text)
    requires a != [] && a[0] != SPACE && c !in a
    ensures Token(a + [c] + b, c) == (a, Some(b))
  {
    var s := a + [c] + b;
    assert TrimLeft(s, x => x == SPACE) == s;
    PositionIs(s, c, |a|);
    assert s[..|a|] == a && s[|a| + 1..] == b;
  }

  lemma ServerLoaded(l: Loaded, s: Server)
    requires GoodServer(s) && forall i :: 0 <= i < |l.servers| ==> !(Same(l.servers[i].name, s.name) && l.servers[i].port == s.port)
    ensures Processed(l, {SERVERS}, s.name + [COLON] + Decimal(s.port)) == l.(servers := l.servers + [s])
  {
    hide Token, Decimal, AtoulFrom, Find, Cmp;
    TokenOf(s.name, COLON, Decimal(s.port));
    AtoulDecimal(s.port);
  }

  lemma NameArgs(n: Text)
    requires GoodName(n)
    ensures Args(n, 10) == [n]
  {
    PositionIs(n, COMMA, |n|);
    assert TrimLeft(n, IsSpace) == n && TrimRight(n, IsSpace) == n && n[..|n|] == n;
  }

  lemma NameLoaded(ns: seq<Text>, n: Text)
    requires GoodName(n) && forall i :: 0 <= i < |ns| ==> !Same(n, ns[i])
    ensures AddNames(ns, Args(n, 10)) == ns + [n]
  {
    hide Cmp, Args;
    NameArgs(n);
    assert [n][1..] == [];
  }

  lemma PrefLoaded(l: Loaded, p: Pref)
    requires GoodPref(p) && p.value.Some?
    ensures Processed(l, {SETS}, p.name + [SPACE] + p.value.value) == l.(prefs := Set(l.prefs, p.name, p.value.value))
  {
    hide Token, Wiped, Set, Trimmed;
    assert p.name != [] && p.name[0] != SPACE by { TrimmedFirst(p.name); }
    TokenOf(p.name, SPACE, p.value.value);
    WipedLine(p.value.value);
  }

  lemma TrimmedFirst(s: Text)
    requires Trimmed(s)
    ensures s != [] && s[0] != SPACE
  {}

  // --------------------------------------------------------- block by block

  lemma ServerWord(s: Server)
    requires GoodServer(s)
    ensures Word(s.name + [COLON] + Decimal(s.port))
  {
    var d := Decimal(s.port);
    var w := s.name + [COLON] + d;
    assert w[0] == s.name[0] && w[|w| - 1] == d[|d| - 1];
  }

  /** One more line in front of lines that are already understood. */
  lemma ProcessLine(l: Loaded, section: set<Section>, w: Text, more: seq<Text>)
    requires Word(w)
    ensures Process(l, section, [[SPACE] + w] + more) == Process(Processed(l, section, w), section, more)
  {
    hide Processed, Process;
    ProcessOne(l, section, w);
    ProcessApart(l, section, [[SPACE] + w], more);
  }

  lemma {:induction false} LoadServers(l: Loaded, ss: seq<Server>)
    requires (forall s :: s in ss ==> GoodServer(s)) && ServersApart(l.servers + ss)
    ensures Process(l, {SERVERS}, ServerLines(ss)) == (l.(servers := l.servers + ss), {SERVERS})
    decreases |ss|
  {
    hide Process, Processed, GoodServer, Decimal, Cmp, Word;
    if ss == [] {
      ProcessNone(l, {SERVERS});
      assert l.servers + ss == l.servers;
    } else {
      var s, n := ss[0], l.servers;
      var w := s.name + [COLON] + Decimal(s.port);
      ServerWord(s);
      assert forall i :: 0 <= i < |n| ==> (n + ss)[i] == n[i] && (n + ss)[|n|] == s;
      ServerLoaded(l, s);
      assert (n + [s]) + ss[1..] == n + ss;
      LoadServers(l.(servers := n + [s]), ss[1..]);
      SameServerLine(s);
      ProcessLine(l, {SERVERS}, w, ServerLines(ss[1..]));
    }
  }

  lemma SameServerLine(s: Server)
    ensures s.name + [COLON] + Decimal(s.port) == s.name + ([COLON] + Decimal(s.port))
  {}

  /** The names of a list read back, whichever list it is. */
  lemma {:induction false} LoadNames(l: Loaded, section: set<Section>, ns: seq<Text>)
    requires section == {IRCNOTIFY} || section == {UTMPNOTIFY}
    requires (forall n :: n in ns ==> GoodName(n)) && NamesApart(Names(l, section) + ns)
    ensures Process(l, section, NameLines(ns)) == (WithNames(l, section, Names(l, section) + ns), section)
    decreases |ns|
  {
    hide Process, GoodName, Cmp, Word, Args, AddNames;
    var was := Names(l, section);
    if ns == [] {
      ProcessNone(l, section);
      assert was + ns == was;
    } else {
      var n := ns[0];
      assert Word(n) by { NameWord(n); }
      forall i | 0 <= i < |was| ensures !Same(n, was[i]) {
        assert (was + ns)[i] == was[i] && (was + ns)[|was|] == n;
      }
      NameLoaded(was, n);
      assert (was + [n]) + ns[1..] == was + ns;
      LoadNames(WithNames(l, section, was + [n]), section, ns[1..]);
      ProcessLine(l, section, n, NameLines(ns[1..]));
    }
  }

  function Names(l: Loaded, section: set<Section>): seq<Text> {
    if IRCNOTIFY in section then l.irc else l.utmp
  }

  function WithNames(l: Loaded, section: set<Section>, ns: seq<Text>): Loaded {
    if IRCNOTIFY in section then l.(irc := ns) else l.(utmp := ns)
  }

  lemma NameWord(n: Text)
    requires GoodName(n)
    ensures Word(n)
  {}

  /** The tree after all the settings of the list. */
  function SetAll(t: Tree, ps: seq<Pref>): Tree
    decreases |ps|
  {
    if ps == [] then t
    else SetAll(if ps[0].value.Some? then Set(t, ps[0].name, ps[0].value.value) else t, ps[1..])
  }

  lemma {:induction false} SetAllApart(t: Tree, a: seq<Pref>, b: seq<Pref>)
    ensures SetAll(t, a + b) == SetAll(SetAll(t, a), b)
    decreases |a|
  {
    if a == [] {
      assert a + b == b;
    } else {
      assert (a + b)[1..] == a[1..] + b;
      SetAllApart(if a[0].value.Some? then Set(t, a[0].name, a[0].value.value) else t, a[1..], b);
    }
  }

  lemma {:induction false} LoadSets(l: Loaded, t: Tree)
    requires forall p :: p in Inorder(t) ==> GoodPref(p)
    ensures Process(l, {SETS}, SetLines(t)) == (l.(prefs := SetAll(l.prefs, Inorder(t))), {SETS})
    decreases t
  {
    hide Process, GoodPref, SetAll;
    match t
    case Leaf =>
      ProcessNone(l, {SETS});
      SetAllNone(l.prefs);
    case Node(a, e, b) =>
      var x, y := Inorder(a), Inorder(b);
      LoadSets(l, a);
      var la := l.(prefs := SetAll(l.prefs, x));
      assert e in Inorder(t);
      LoadSet(la, e);
      var le := la.(prefs := SetAll(la.prefs, [e]));
      LoadSets(le, b);
      ProcessApart(l, {SETS}, SetLines(a), SetLine(e));
      ProcessApart(l, {SETS}, SetLines(a) + SetLine(e), SetLines(b));
      SetAllApart(l.prefs, x, [e]);
      SetAllApart(l.prefs, x + [e], y);
  }

  lemma SetAllNone(t: Tree)
    ensures SetAll(t, []) == t
  {}

  lemma LoadSet(l: Loaded, e: Pref)
    requires GoodPref(e)
    ensures Process(l, {SETS}, SetLine(e)) == (l.(prefs := SetAll(l.prefs, [e])), {SETS})
  {
    hide Process, Processed;
    assert [e][1..] == [];
    if e.value.Some? {
      var w := e.name + [SPACE] + e.value.value;
      assert w == e.name + ([SPACE] + e.value.value);
      assert w[0] == e.name[0] && w[|w| - 1] == e.value.value[|e.value.value| - 1];
      PrefLoaded(l, e);
      ProcessOne(l, {SETS}, w);
    } else {
      ProcessNone(l, {SETS});
    }
  }

  /** The tree has an entry for a saved setting, of a level that takes its value. */
  predicate Settable(t: Tree, p: Pref) {
    match Find(t, p.name)
    case Some(e) => p.value.Some? && Fits(e.level, p.value.value)
    case None => false
  }

  /** What is found under key is the saved value, up to case. */
  predicate Restored(t: Tree, key: Text, p: Pref) {
    match Find(t, key)
    case Some(e) => e.value.Some? && p.value.Some? && Same(e.value.value, p.value.value)
    case None => false
  }

  /** After settings of distinct names, each is found with its value up to case,
      and what has not been set is as it was. */
  lemma {:induction false} SetAllFinds(t: Tree, ps: seq<Pref>, key: Text)
    requires forall i, j :: 0 <= i < j < |ps| ==> !Same(ps[i].name, ps[j].name)
    ensures (forall i :: 0 <= i < |ps| ==> !(ps[i].value.Some? && Same(ps[i].name, key))) ==> Find(SetAll(t, ps), key) == Find(t, key)
    ensures forall i :: 0 <= i < |ps| && Same(ps[i].name, key) && Settable(t, ps[i]) ==> Restored(SetAll(t, ps), key, ps[i])
    decreases |ps|
  {
    hide Cmp, Set, Find, Fits;
    if ps != [] {
      var p := ps[0];
      var u := if p.value.Some? then Set(t, p.name, p.value.value) else t;
      SetAllFinds(u, ps[1..], key);
      if p.value.Some? { SetFinds(t, p.name, p.value.value, key); }
      forall i | 0 < i < |ps| && Same(ps[i].name, key) ensures Find(u, ps[i].name) == Find(t, ps[i].name) {
        if p.value.Some? { SetFinds(t, p.name, p.value.value, ps[i].name); }
      }
      forall i | 0 < i < |ps| && Same(ps[i].name, key) ensures !Same(p.name, key) {
        Anti(ps[i].name, key);
        Trans(p.name, key, ps[i].name);
        Trans(ps[i].name, key, p.name);
        Anti(p.name, key);
        Anti(p.name, ps[i].name);
      }
      assert forall i :: 0 < i < |ps| ==> ps[1..][i - 1] == ps[i];
    }
  }

  // -------------------------------------------------------------- round trip

  lemma SkipLines(l: Loaded, section: set<Section>, lines: seq<Text>)
    requires forall i :: 0 <= i < |lines| ==> Comment(lines[i])
    ensures Process(l, section, lines) == (l, section)
    decreases |lines|
  {
    if lines != [] { SkipLines(l, section, lines[1..]); }
  }

  lemma EmptyLine(l: Loaded, section: set<Section>)
    ensures Process(l, section, [[]]) == (l, section)
  {
    assert Wiped([]) == [];
    var one: seq<Text> := [[]];
    assert one[1..] == [];
  }

  /** A header line, and the section it opens. */
  lemma OpenSection(l: Loaded, section: set<Section>, head: Text, next: Section)
    requires Trimmed(head) && head[0] == BRACKET && Header(head, section) == {next}
    ensures Process(l, section, [head]) == (l, {next})
  {
    hide Header, Wiped;
    WipedLine(head);
    ProcessNone(l, {next});
    assert [head][1..] == [];
  }

  lemma Headers()
    ensures Trimmed(SERVERS_HEAD) && Header(SERVERS_HEAD, {}) == {SERVERS}
    ensures Trimmed(SETS_HEAD) && Header(SETS_HEAD, {SERVERS}) == {SETS}
    ensures Trimmed(IRC_HEAD) && Header(IRC_HEAD, {SETS}) == {IRCNOTIFY}
    ensures Trimmed(UTMP_HEAD) && Header(UTMP_HEAD, {IRCNOTIFY}) == {UTMPNOTIFY}
  {
    hide NCmp;
    HeadSelf(SERVERS_HEAD);
    HeadSelf(SETS_HEAD);
    HeadSelf(IRC_HEAD);
    HeadSelf(UTMP_HEAD);
    HeadsDiffer();
    assert {SERVERS} - {CHANNELS, SETS, IRCNOTIFY, UTMPNOTIFY} == {SERVERS};
    assert {SERVERS} + {SETS} - {SERVERS, CHANNELS, IRCNOTIFY, UTMPNOTIFY} == {SETS};
    assert {SETS} + {IRCNOTIFY} - {SERVERS, CHANNELS, SETS, UTMPNOTIFY} == {IRCNOTIFY};
    assert {IRCNOTIFY} + {UTMPNOTIFY} - {SERVERS, CHANNELS, SETS, IRCNOTIFY} == {UTMPNOTIFY};
  }

  lemma {:induction false} NCmpSelf(a: Text, n: nat)
    ensures NCmp(a, a, n) == 0
    decreases n
  {
    if n > 0 && a != [] { NCmpSelf(a[1..], n - 1); }
  }

  lemma HeadSelf(a: Text)
    ensures HeadIs(a, a)
  {
    NCmpSelf(a, |a|);
  }

  /** Headers that come later in the file are no earlier ones by their prefix. */
  lemma HeadsDiffer()
    ensures !HeadIs(SETS_HEAD, SERVERS_HEAD) && !HeadIs(SETS_HEAD, CHANNELS_HEAD)
    ensures !HeadIs(IRC_HEAD, SERVERS_HEAD) && !HeadIs(IRC_HEAD, CHANNELS_HEAD) && !HeadIs(IRC_HEAD, SETS_HEAD)
    ensures !HeadIs(UTMP_HEAD, SERVERS_HEAD) && !HeadIs(UTMP_HEAD, CHANNELS_HEAD) && !HeadIs(UTMP_HEAD, SETS_HEAD)
    ensures !HeadIs(UTMP_HEAD, IRC_HEAD)
  {
    DifferAt(SETS_HEAD, SERVERS_HEAD, 3);
    DifferAt(SETS_HEAD, CHANNELS_HEAD, 1);
    DifferAt(IRC_HEAD, SERVERS_HEAD, 1);
    DifferAt(IRC_HEAD, CHANNELS_HEAD, 1);
    DifferAt(IRC_HEAD, SETS_HEAD, 1);
    DifferAt(UTMP_HEAD, SERVERS_HEAD, 1);
    DifferAt(UTMP_HEAD, CHANNELS_HEAD, 1);
    DifferAt(UTMP_HEAD, SETS_HEAD, 1);
    DifferAt(UTMP_HEAD, IRC_HEAD, 1);
  }

  lemma {:induction false} Differ(a: Text, b: Text, n: nat, k: nat)
    requires k < n && k < |a| && k < |b| && Fold(a[k]) != Fold(b[k])
    ensures NCmp(a, b, n) != 0
    decreases k
  {
    if k > 0 { Differ(a[1..], b[1..], n - 1, k - 1); }
  }

  lemma DifferAt(a: Text, b: Text, k: nat)
    requires k < |a| && k < |b| && Fold(a[k]) != Fold(b[k])
    ensures !HeadIs(a, b)
  {
    Differ(a, b, |b|, k);
  }

  lemma LoadServersPart(l: Loaded, ss: seq<Server>)
    requires l.servers == [] && (forall s :: s in ss ==> GoodServer(s)) && ServersApart(ss)
    ensures Process(l, {}, WriteServers(ss)) == (l.(servers := ss), {SERVERS})
  {
    hide Process, Header, GoodServer, ServersApart;
    Headers();
    OpenSection(l, {}, SERVERS_HEAD, SERVERS);
    if ss == [] {
      assert l.(servers := ss) == l;
      assert [SERVERS_HEAD] + [] == [SERVERS_HEAD];
    } else {
      assert l.servers + ss == ss;
      LoadServers(l, ss);
      EmptyLine(l.(servers := ss), {SERVERS});
      ProcessApart(l, {SERVERS}, ServerLines(ss), [[]]);
      ProcessApart(l, {}, [SERVERS_HEAD], ServerLines(ss) + [[]]);
    }
  }

  lemma LoadSetsPart(l: Loaded, t: Tree)
    requires forall p :: p in Inorder(t) ==> GoodPref(p)
    ensures Process(l, {SERVERS}, WriteSets(t)) == (l.(prefs := SetAll(l.prefs, Inorder(t))), {SETS})
  {
    hide Process, Header, GoodPref, SetAll;
    Headers();
    OpenSection(l, {SERVERS}, SETS_HEAD, SETS);
    EmptyLine(l, {SERVERS});
    LoadSets(l, t);
    var m := l.(prefs := SetAll(l.prefs, Inorder(t)));
    EmptyLine(m, {SETS});
    ProcessApart(l, {SETS}, SetLines(t), [[]]);
    ProcessApart(l, {SERVERS}, [[]], [SETS_HEAD]);
    assert [[]] + [SETS_HEAD] == [[], SETS_HEAD];
    ProcessApart(l, {SERVERS}, [[], SETS_HEAD], SetLines(t) + [[]]);
  }

  lemma LoadNamesPart(l: Loaded, before: Section, head: Text, section: Section, ns: seq<Text>)
    requires section == IRCNOTIFY || section == UTMPNOTIFY
    requires Trimmed(head) && head[0] == BRACKET && Header(head, {before}) == {section}
    requires Names(l, {section}) == [] && (forall n :: n in ns ==> GoodName(n)) && NamesApart(ns)
    ensures Process(l, {before}, WriteNames(head, ns)) == (WithNames(l, {section}, ns), {section})
  {
    hide Process, Header, GoodName, NamesApart;
    OpenSection(l, {before}, head, section);
    EmptyLine(l, {before});
    ProcessApart(l, {before}, [[]], [head]);
    assert [[]] + [head] == [[], head];
    if ns == [] {
      assert [[], head] + [] == [[], head];
      assert WithNames(l, {section}, ns) == l;
    } else {
      assert Names(l, {section}) + ns == ns;
      LoadNames(l, {section}, ns);
      EmptyLine(WithNames(l, {section}, ns), {section});
      ProcessApart(l, {section}, NameLines(ns), [[]]);
      ProcessApart(l, {before}, [[], head], NameLines(ns) + [[]]);
    }
  }

  /** A well-formed configuration, written and read back over fresh lists and a
      tree of preferences: the lists come back in order, every saved setting that
      the tree has a place for comes back up to case, and other settings keep
      their values. */
  lemma RoundTrip(c: Loaded, comments: seq<Text>, fresh0: Tree)
    requires WellFormed(c) && (forall i :: 0 <= i < |comments| ==> Comment(comments[i])) && Short(Written(c, comments))
    ensures var l := Process(Loaded([], [], [], fresh0), {}, Chopped(Written(c, comments))).0;
      && l.servers == c.servers && l.irc == c.irc && l.utmp == c.utmp
      && (forall p :: p in Inorder(c.prefs) && Settable(fresh0, p) ==> Restored(l.prefs, p.name, p))
      && (forall key :: (forall p :: p in Inorder(c.prefs) ==> !(p.value.Some? && Same(p.name, key))) ==>
            Find(l.prefs, key) == Find(fresh0, key))
  {
    hide Chopped, Short, Process, Header, SetAll, GoodServer, GoodName, GoodPref, ServersApart, NamesApart, Comment, Ordered, Restored, Settable,
      Find, Cmp, Inorder, WriteServers, WriteSets, WriteNames;
    var l0 := Loaded([], [], [], fresh0);
    var l1 := l0.(servers := c.servers);
    var l2 := l1.(prefs := SetAll(fresh0, Inorder(c.prefs)));
    var l3 := l2.(irc := c.irc);
    ShortIsWhole(l0, {}, Written(c, comments));
    Headers();
    SkipLines(l0, {}, comments);
    LoadServersPart(l0, c.servers);
    LoadSetsPart(l1, c.prefs);
    LoadNamesPart(l2, SETS, IRC_HEAD, IRCNOTIFY, c.irc);
    LoadNamesPart(l3, IRCNOTIFY, UTMP_HEAD, UTMPNOTIFY, c.utmp);
    var w3 := WriteNames(IRC_HEAD, c.irc) + WriteNames(UTMP_HEAD, c.utmp);
    ProcessApart(l2, {SETS}, WriteNames(IRC_HEAD, c.irc), WriteNames(UTMP_HEAD, c.utmp));
    ProcessApart(l1, {SERVERS}, WriteSets(c.prefs), w3);
    ProcessApart(l0, {}, WriteServers(c.servers), WriteSets(c.prefs) + w3);
    ProcessApart(l0, {}, comments, WriteServers(c.servers) + (WriteSets(c.prefs) + w3));
    SettingsBack(fresh0, c.prefs);
  }

  lemma SettingsBack(t: Tree, saved: Tree)
    requires Ordered(saved)
    ensures forall p :: p in Inorder(saved) && Settable(t, p) ==> Restored(SetAll(t, Inorder(saved)), p.name, p)
    ensures forall key :: (forall p :: p in Inorder(saved) ==> !(p.value.Some? && Same(p.name, key))) ==>
      Find(SetAll(t, Inorder(saved)), key) == Find(t, key)
  {
    hide SetAll, Find, Restored, Settable, Cmp, Inorder, Ordered;
    var ps := Inorder(saved);
    InorderSorted(saved);
    forall p | p in ps && Settable(t, p) ensures Restored(SetAll(t, ps), p.name, p) {
      var i :| 0 <= i < |ps| && ps[i] == p;
      SameSelf(p.name);
      SetAllFinds(t, ps, p.name);
    }
    forall key | forall p :: p in ps ==> !(p.value.Some? && Same(p.name, key))
      ensures Find(SetAll(t, ps), key) == Find(t, key)
    {
      SetAllFinds(t, ps, key);
    }
  }

  // ------------------------------------------- settings too long for the file

  lemma TrimmedShorter(s: Text, blank: Byte -> bool)
    ensures |TrimLeft(s, blank)| <= |s| && |TrimRight(s, blank)| <= |s|
  {}

  lemma WipedShorter(s: Text)
    ensures |Wiped(s)| <= |s|
  {
    TrimmedShorter(s, White);
    TrimmedShorter(TrimRight(s, White), White);
  }

  lemma TokenShorter(s: Text, c: Byte)
    ensures var t := Token(s, c); t.1.Some? ==> |t.0| + 1 + |t.1.value| <= |s|
  {
    TrimmedShorter(s, b => b == SPACE);
  }

  lemma SameLength(a: Text, b: Text)
    requires Same(a, b)
    ensures |a| == |b|
  {
    SameIsFolded(a, b);
    FoldedLength(a);
    FoldedLength(b);
  }

  lemma FoldedLength(a: Text)
    ensures |Folded(a)| == |a|
  {}

  /** A line that is too short for the setting does not restore it. */
  lemma ProcessedLost(l: Loaded, section: set<Section>, line: Text, p: Pref)
    requires p.value.Some? && |line| < |p.name| + 1 + |p.value.value| && !Restored(l.prefs, p.name, p)
    ensures !Restored(Processed(l, section, line).prefs, p.name, p)
  {
    hide Token, Wiped, Find, Fits, Cmp, Args, AddNames, AddServer, AtoulFrom;
    var t := Token(line, SPACE);
    if t.1.Some? {
      var u := Wiped(t.1.value);
      TokenShorter(line, SPACE);
      WipedShorter(t.1.value);
      SetFinds(l.prefs, t.0, u, p.name);
      if Same(t.0, p.name) {
        SameLength(t.0, p.name);
        SameFind(l.prefs, t.0, p.name);
        ShorterLost(Set(l.prefs, t.0, u), p, u);
      }
    }
  }

  lemma ShorterLost(t: Tree, p: Pref, u: Text)
    requires p.value.Some? && |u| < |p.value.value|
    ensures Find(t, p.name).Some? && Find(t, p.name).value.value.Some? && Same(Find(t, p.name).value.value.value, u) ==>
              !Restored(t, p.name, p)
  {
    hide Find, Cmp;
    if Restored(t, p.name, p) {
      var v := Find(t, p.name).value.value.value;
      SameLength(v, p.value.value);
      if Same(v, u) { SameLength(v, u); }
    }
  }

  /** A line that cannot hold the setting: nothing, a comment, or less than its name
      and value. */
  predicate TooShort(line: Text, p: Pref) {
    Comment(line) || (p.value.Some? && |Wiped(line)| < |p.name| + 1 + |p.value.value|)
  }

  lemma {:induction false} StaysLost(l: Loaded, section: set<Section>, lines: seq<Text>, p: Pref)
    requires p.value.Some? && !Restored(l.prefs, p.name, p)
    requires forall i :: 0 <= i < |lines| ==> TooShort(lines[i], p)
    ensures !Restored(Process(l, section, lines).0.prefs, p.name, p)
    decreases |lines|
  {
    hide Wiped, Header, Processed, Restored, Process;
    if lines == [] {
      ProcessNone(l, section);
    } else {
      var line := Wiped(lines[0]);
      ProcessStep(l, section, lines);
      if line == [] || line[0] == HASH {
        StaysLost(l, section, lines[1..], p);
      } else if line[0] == BRACKET {
        StaysLost(l, Header(line, section), lines[1..], p);
      } else {
        ProcessedLost(l, section, line, p);
        StaysLost(Processed(l, section, line), section, lines[1..], p);
      }
    }
  }

  lemma {:induction false} ChoppedShort(file: seq<Text>)
    ensures Short(Chopped(file))
    decreases Size(file)
  {
    if file != [] {
      ChoppedShort(Fgets(file).1);
    }
  }

  /** No file whatever brings back a setting whose name and value take more than 78
      bytes, unless it was there before. */
  lemma NoFileHolds(l: Loaded, section: set<Section>, file: seq<Text>, p: Pref)
    requires p.value.Some? && |p.name| + 1 + |p.value.value| > 78 && !Restored(l.prefs, p.name, p)
    ensures !Restored(Process(l, section, Chopped(file)).0.prefs, p.name, p)
  {
    hide Process, Restored, Wiped, Chopped;
    ChoppedShort(file);
    forall i | 0 <= i < |Chopped(file)| ensures TooShort(Chopped(file)[i], p) {
      WipedShorter(Chopped(file)[i]);
    }
    StaysLost(l, section, Chopped(file), p);
  }

  /** Read alone, a written setting comes back just when its line has 78 bytes at most. */
  lemma SettingSurvives(l: Loaded, p: Pref)
    requires GoodPref(p) && p.value.Some? && Settable(l.prefs, p) && !Restored(l.prefs, p.name, p)
    ensures Restored(Process(l, {SETS}, Chopped(SetLine(p))).0.prefs, p.name, p)
            <==> |p.name| + |p.value.value| + 2 <= 78
  {
    hide GoodPref, Process, Restored, Wiped, Settable, SetAll, Chopped;
    if |p.name| + |p.value.value| + 2 <= 78 {
      ShortIsWhole(l, {SETS}, SetLine(p));
      LoadSet(l, p);
      SameSelf(p.name);
      assert [p][0] == p;
      SetAllFinds(l.prefs, [p], p.name);
    } else {
      var lines := Chopped(SetLine(p));
      PiecesShort(p, lines);
      StaysLost(l, {SETS}, lines, p);
    }
  }

  /** The first piece starts with a blank, the others are too short in any case. */
  lemma PiecesShort(p: Pref, lines: seq<Text>)
    requires p.value.Some? && |p.name| + |p.value.value| + 2 > 78 && lines == Chopped(SetLine(p))
    ensures forall i :: 0 <= i < |lines| ==> TooShort(lines[i], p)
  {
    hide Wiped;
    var line := [SPACE] + (p.name + [SPACE] + p.value.value);
    var rest := [line[78..]];
    assert SetLine(p) == [line] && [line[78..]] + SetLine(p)[1..] == rest;
    assert lines == [line[..78]] + Chopped(rest);
    ChoppedBound(rest, |line| - 78);
    forall i | 0 <= i < |lines| ensures TooShort(lines[i], p) {
      if i == 0 {
        BlankWiped(line[..78]);
      } else {
        assert lines[i] == Chopped(rest)[i - 1];
        WipedShorter(lines[i]);
      }
    }
  }

  lemma BlankWiped(s: Text)
    requires s != [] && s[0] == SPACE
    ensures |Wiped(s)| < |s|
  {
    var t := TrimRight(s, White);
    TrimmedShorter(s, White);
    if |t| == |s| {
      assert t[0] == SPACE by { TrimRightPrefix(s, White); }
      TrimmedShorter(t[1..], White);
    } else {
      TrimmedShorter(t, White);
    }
  }

  lemma TrimRightPrefix(s: Text, blank: Byte -> bool)
    ensures TrimRight(s, blank) <= s
  {}

  lemma {:induction false} ChoppedBound(file: seq<Text>, n: nat)
    requires forall i :: 0 <= i < |file| ==> |file[i]| <= n
    ensures forall i :: 0 <= i < |Chopped(file)| ==> |Chopped(file)[i]| <= n
    decreases Size(file)
  {
    if file != [] {
      ChoppedBound(Fgets(file).1, n);
    }
  }

  // ------------------------------------------ what a written file brings back

  lemma {:induction false} ChoppedApart(a: seq<Text>, b: seq<Text>)
    ensures Chopped(a + b) == Chopped(a) + Chopped(b)
    decreases Size(a)
  {
    if a == [] {
      assert a + b == b;
    } else {
      assert (a + b)[1..] == a[1..] + b;
      assert (a + b)[0] == a[0];
      assert |a[0]| >= 78 ==> [a[0][78..]] + (a[1..] + b) == ([a[0][78..]] + a[1..]) + b;
      ChoppedApart(Fgets(a).1, b);
    }
  }

  /** A line that is read whole, or up to its last byte, and does not fill a read. */
  predicate Mild(line: Text) {
    |line| < 78 || (|line| == 78 && Comment(line)) || (|line| <= 79 && line[0] == SPACE)
  }

  lemma MildPieces(line: Text, p: Pref)
    requires Mild(line) && p.value.Some? && |p.name| + 1 + |p.value.value| >= 78
    ensures forall i :: 0 <= i < |Chopped([line])| ==> TooShort(Chopped([line])[i], p)
  {
    hide Wiped, Comment;
    var rest := if |line| >= 78 then [line[78..]] else [];
    WipedShorter(line);
    if |line| >= 78 {
      assert Fgets([line]) == (line[..78], rest) by { assert [line[78..]] + [line][1..] == rest; }
      assert rest[1..] == [] && Chopped(rest) == [line[78..]];
      assert Chopped([line]) == [line[..78], line[78..]];
      WipedShorter(line[78..]);
      if line[0] == SPACE { BlankWiped(line[..78]); } else { assert line[..78] == line; }
    } else {
      assert Chopped([line]) == [line];
    }
  }

  lemma {:induction false} FileTooShort(file: seq<Text>, p: Pref)
    requires p.value.Some? && |LineOf(p)| > 78
    requires forall i :: 0 <= i < |file| ==> Mild(file[i]) || file[i] == LineOf(p)
    ensures forall i :: 0 <= i < |Chopped(file)| ==> TooShort(Chopped(file)[i], p)
    decreases |file|
  {
    hide TooShort, Chopped, Mild;
    if file == [] {
      ChoppedNone();
    } else {
      var one, rest := [file[0]], file[1..];
      assert file == one + rest;
      if Mild(file[0]) { MildPieces(file[0], p); } else { PiecesShort(p, Chopped(SetLine(p))); }
      FileTooShort(rest, p);
      ChoppedApart(one, rest);
    }
  }

  lemma ChoppedNone()
    ensures Chopped([]) == []
  {}

  /** The shapes of lines in a written file. */
  predicate Shaped(line: Text) {
    Comment(line) || (line != [] && line[0] == SPACE) || |line| < 78
  }

  lemma {:induction false} SetLinesAre(t: Tree)
    ensures forall s :: s in SetLines(t) <==> exists p :: p in Inorder(t) && p.value.Some? && s == LineOf(p)
  {
    match t
    case Leaf =>
    case Node(l, e, r) =>
      SetLinesAre(l);
      SetLinesAre(r);
      forall s | s in SetLines(t) ensures exists p :: p in Inorder(t) && p.value.Some? && s == LineOf(p) {
        if s in SetLines(l) {
          var p :| p in Inorder(l) && p.value.Some? && s == LineOf(p);
          assert p in Inorder(t);
        } else if s in SetLines(r) {
          var p :| p in Inorder(r) && p.value.Some? && s == LineOf(p);
          assert p in Inorder(t);
        } else {
          assert e in Inorder(t) && s in SetLine(e);
        }
      }
      forall s | exists p :: p in Inorder(t) && p.value.Some? && s == LineOf(p) ensures s in SetLines(t) {
        var p :| p in Inorder(t) && p.value.Some? && s == LineOf(p);
        if p in Inorder(l) { assert s in SetLines(l); }
        else if p in Inorder(r) { assert s in SetLines(r); }
        else { assert s in SetLine(e); }
      }
  }

  lemma {:induction false} ServerLinesShaped(ss: seq<Server>)
    ensures forall s :: s in ServerLines(ss) ==> s != [] && s[0] == SPACE
  {
    if ss != [] { ServerLinesShaped(ss[1..]); }
  }

  lemma {:induction false} NameLinesShaped(ns: seq<Text>)
    ensures forall s :: s in NameLines(ns) ==> s != [] && s[0] == SPACE
    ensures (forall n :: n in ns ==> GoodName(n)) ==> forall s :: s in NameLines(ns) ==> |s| <= 78
  {
    hide GoodName;
    if ns != [] {
      NameLinesShaped(ns[1..]);
      if GoodName(ns[0]) { GoodNameShort(ns[0]); }
    }
  }

  lemma GoodNameShort(n: Text)
    requires GoodName(n)
    ensures |n| < MAXNICKLEN
  {}

  /** What is in a written file: comments, headers, and the lines of the four parts. */
  lemma WrittenIs(c: Loaded, comments: seq<Text>)
    ensures forall s :: s in Written(c, comments) ==>
              || s in comments || s in ServerLines(c.servers) || s in SetLines(c.prefs)
              || s in NameLines(c.irc) || s in NameLines(c.utmp) || |s| < 78
    ensures forall s :: s in SetLines(c.prefs) ==> s in Written(c, comments)
  {
    hide ServerLines, SetLines, NameLines;
    assert |SERVERS_HEAD| < 78 && |SETS_HEAD| < 78 && |IRC_HEAD| < 78 && |UTMP_HEAD| < 78;
    var a, b, d, e := WriteServers(c.servers), WriteSets(c.prefs), WriteNames(IRC_HEAD, c.irc), WriteNames(UTMP_HEAD, c.utmp);
    forall s | s in SetLines(c.prefs) ensures s in Written(c, comments) { assert s in b; }
  }

  lemma WrittenShaped(c: Loaded, comments: seq<Text>)
    requires forall i :: 0 <= i < |comments| ==> Comment(comments[i])
    ensures forall s :: s in Written(c, comments) ==> Shaped(s)
  {
    hide Comment, Written, ServerLines, SetLines, NameLines, Inorder, LineOf;
    WrittenIs(c, comments);
    ServerLinesShaped(c.servers);
    NameLinesShaped(c.irc);
    NameLinesShaped(c.utmp);
    SetLinesAre(c.prefs);
    forall s | s in SetLines(c.prefs) ensures s != [] && s[0] == SPACE {
      var p :| p in Inorder(c.prefs) && p.value.Some? && s == LineOf(p);
      LineStarts(p);
    }
  }

  lemma LineStarts(p: Pref)
    requires p.value.Some?
    ensures LineOf(p) != [] && LineOf(p)[0] == SPACE && |LineOf(p)| == |p.name| + |p.value.value| + 2
  {}

  /** What reading the written file back leaves of the settings. */
  function ReadBack(c: Loaded, comments: seq<Text>, fresh0: Tree): Tree {
    Process(Loaded([], [], [], fresh0), {}, Chopped(Written(c, comments))).0.prefs
  }

  /** A setting that is new to the tree comes back from a written file whose other lines
      are short just when its own line has 78 bytes at most. */
  lemma SettingComesBack(c: Loaded, comments: seq<Text>, fresh0: Tree, p: Pref)
    requires WellFormed(c) && forall i :: 0 <= i < |comments| ==> Comment(comments[i])
    requires p in Inorder(c.prefs) && p.value.Some? && Settable(fresh0, p) && !Restored(fresh0, p.name, p)
    requires forall s :: s in Written(c, comments) && s != LineOf(p) ==> |s| <= 78
    ensures Restored(ReadBack(c, comments, fresh0), p.name, p) <==> |LineOf(p)| <= 78
  {
    hide WellFormed, Comment, Inorder, Settable, Restored, Written, Process, Chopped, Mild, LineOf, TooShort;
    var file := Written(c, comments);
    if |LineOf(p)| <= 78 {
      RoundTrip(c, comments, fresh0);
    } else {
      WrittenShaped(c, comments);
      forall i | 0 <= i < |file| ensures Mild(file[i]) || file[i] == LineOf(p) {
        assert file[i] in file && Shaped(file[i]);
        if |file[i]| <= 78 { ShapedIsMild(file[i]); }
      }
      FileTooShort(file, p);
      StaysLost(Loaded([], [], [], fresh0), {}, Chopped(file), p);
    }
  }

  lemma ShapedIsMild(line: Text)
    requires Shaped(line) && (|line| <= 78 || (|line| == 79 && line[0] == SPACE))
    ensures Mild(line)
  {}

  /** All the settings, new to the tree, come back from a file whose other lines are
      short just when every setting's line has 78 bytes at most. */
  lemma AllComeBack(c: Loaded, comments: seq<Text>, fresh0: Tree)
    requires WellFormed(c) && (forall i :: 0 <= i < |comments| ==> Comment(comments[i])) && Short(comments) && Short(ServerLines(c.servers))
    requires forall p :: p in Inorder(c.prefs) && p.value.Some? ==> Settable(fresh0, p) && !Restored(fresh0, p.name, p)
    ensures (forall p :: p in Inorder(c.prefs) && p.value.Some? ==> Restored(ReadBack(c, comments, fresh0), p.name, p))
            <==> Short(SetLines(c.prefs))
  {
    hide Comment, Inorder, Settable, Restored, Written, Process, Chopped, Mild, LineOf, TooShort, SetLines, ServerLines, NameLines;
    var file := Written(c, comments);
    WrittenIs(c, comments);
    SetLinesAre(c.prefs);
    NameLinesShaped(c.irc);
    NameLinesShaped(c.utmp);
    if Short(SetLines(c.prefs)) {
      ShortAll(c, comments);
      RoundTrip(c, comments, fresh0);
    } else {
      var i :| 0 <= i < |SetLines(c.prefs)| && |SetLines(c.prefs)[i]| > 78;
      var p :| p in Inorder(c.prefs) && p.value.Some? && SetLines(c.prefs)[i] == LineOf(p);
      LongLost(c, comments, fresh0, p);
    }
  }

  lemma ShortAll(c: Loaded, comments: seq<Text>)
    requires (forall n :: n in c.irc ==> GoodName(n)) && (forall n :: n in c.utmp ==> GoodName(n))
    requires Short(comments) && Short(ServerLines(c.servers)) && Short(SetLines(c.prefs))
    ensures Short(Written(c, comments))
  {
    hide GoodName, Written, SetLines, ServerLines, NameLines;
    WrittenIs(c, comments);
    NameLinesShaped(c.irc);
    NameLinesShaped(c.utmp);
  }

  /** Of long settings one at least is lost: one of 80 bytes and more in any case, and
      one of 79 bytes if there are none of these. */
  lemma LongLost(c: Loaded, comments: seq<Text>, fresh0: Tree, p: Pref)
    requires WellFormed(c) && (forall i :: 0 <= i < |comments| ==> Comment(comments[i])) && Short(comments) && Short(ServerLines(c.servers))
    requires forall q :: q in Inorder(c.prefs) && q.value.Some? ==> !Restored(fresh0, q.name, q)
    requires p in Inorder(c.prefs) && p.value.Some? && |LineOf(p)| > 78
    ensures exists q :: q in Inorder(c.prefs) && q.value.Some? && !Restored(ReadBack(c, comments, fresh0), q.name, q)
  {
    hide Comment, Inorder, Restored, Written, Process, Chopped, Mild, LineOf, TooShort, SetLines, ServerLines, NameLines;
    var l0 := Loaded([], [], [], fresh0);
    if q :| q in Inorder(c.prefs) && q.value.Some? && |LineOf(q)| > 79 {
      LineStarts(q);
      NoFileHolds(l0, {}, Written(c, comments), q);
    } else {
      MildFile(c, comments);
      FileTooShort(Written(c, comments), p);
      StaysLost(l0, {}, Chopped(Written(c, comments)), p);
    }
  }

  lemma MildFile(c: Loaded, comments: seq<Text>)
    requires WellFormed(c) && (forall i :: 0 <= i < |comments| ==> Comment(comments[i])) && Short(comments) && Short(ServerLines(c.servers))
    requires forall q :: q in Inorder(c.prefs) && q.value.Some? ==> |LineOf(q)| <= 79
    ensures forall i :: 0 <= i < |Written(c, comments)| ==> Mild(Written(c, comments)[i])
  {
    hide Comment, Inorder, Written, Mild, LineOf, SetLines, ServerLines, NameLines, Shaped;
    var file := Written(c, comments);
    WrittenIs(c, comments);
    WrittenShaped(c, comments);
    NameLinesShaped(c.irc);
    NameLinesShaped(c.utmp);
    SetLinesAre(c.prefs);
    forall i | 0 <= i < |file| ensures Mild(file[i]) {
      assert file[i] in file;
      if file[i] in SetLines(c.prefs) {
        var q :| q in Inorder(c.prefs) && q.value.Some? && file[i] == LineOf(q);
        LineStarts(q);
      }
      ShapedIsMild(file[i]);
    }
  }

  /** A short setting can be lost to the rest of a long one before it: here the rest is
      a bracket, which closes the section. */
  lemma LostToTheRest(l: Loaded, name: Text, v: Text, level: Level, q: Pref)
    requires Word(name) && SPACE !in name && Trimmed(v) && |name| + |v| == 76
    requires GoodPref(q) && q.value.Some? && |LineOf(q)| <= 78 && !Same(name, q.name) && !Restored(l.prefs, q.name, q)
    ensures var p := Pref(name, Some(v + [BRACKET]), level);
            !Restored(Process(l, {SETS}, Chopped(SetLine(p) + SetLine(q))).0.prefs, q.name, q)
  {
    var p, cut := Pref(name, Some(v + [BRACKET]), level), Pref(name, Some(v), Other);
    CutPieces(p, cut);
    hide GoodPref, Process, Restored, Chopped, Set, SetAll, Find, Cmp, Wiped, Trimmed, Processed, Header;
    ChoppedApart(SetLine(p), SetLine(q));
    ProcessApart(l, {SETS}, SetLine(cut) + [[BRACKET]], Chopped(SetLine(q)));
    ProcessApart(l, {SETS}, SetLine(cut), [[BRACKET]]);
    LoadSet(l, cut) by { GoodCut(cut); }
    var m := l.(prefs := SetAll(l.prefs, [cut]));
    BracketCloses(m);
    ShortIsWhole(m, {}, SetLine(q));
    Ignored(m, q);
    SetOne(l.prefs, cut);
    SetFinds(l.prefs, name, v, q.name);
    SameFound(l.prefs, m.prefs, q);
  }

  lemma GoodCut(cut: Pref)
    requires cut.value.Some? && Word(cut.name) && SPACE !in cut.name && Trimmed(cut.value.value) && cut.level == Other
    ensures GoodPref(cut)
  {}

  lemma SetOne(t: Tree, p: Pref)
    requires p.value.Some?
    ensures SetAll(t, [p]) == Set(t, p.name, p.value.value)
  {
    hide Set;
    assert [p][1..] == [];
  }

  lemma SameFound(t: Tree, u: Tree, q: Pref)
    requires Find(t, q.name) == Find(u, q.name)
    ensures Restored(t, q.name, q) == Restored(u, q.name, q)
  {
    hide Find;
  }

  lemma CutPieces(p: Pref, cut: Pref)
    requires p.value.Some? && cut.value.Some? && p.name == cut.name && p.value.value == cut.value.value + [BRACKET]
    requires |p.name| + |cut.value.value| == 76
    ensures Chopped(SetLine(p)) == SetLine(cut) + [[BRACKET]]
  {
    var line := LineOf(p);
    assert line[..78] == LineOf(cut) && line[78..] == [BRACKET];
    assert SetLine(p) == [line] && [line[78..]] + SetLine(p)[1..] == [[BRACKET]];
    assert Chopped([[BRACKET]]) == [[BRACKET]];
  }

  /** A line that starts like a header, but is none, closes the section. */
  lemma BracketCloses(l: Loaded)
    ensures Process(l, {SETS}, [[BRACKET]]) == (l, {})
  {
    hide Process;
    var line: Text := [BRACKET];
    assert Trimmed(line);
    assert Wiped(line) == line by {
      assert line[..0] == [] && TrimRight(line, White) == line && TrimLeft(line, White) == line;
    }
    NoHead(SERVERS_HEAD);
    NoHead(CHANNELS_HEAD);
    NoHead(SETS_HEAD);
    NoHead(IRC_HEAD);
    NoHead(UTMP_HEAD);
    assert Header(line, {SETS}) == {};
    ProcessStep(l, {SETS}, [line]);
    ProcessNone(l, {});
    assert [line][1..] == [];
  }

  lemma NoHead(head: Text)
    requires |head| > 1 && head[0] == BRACKET
    ensures !HeadIs([BRACKET], head)
  {
    var line: Text := [BRACKET];
    assert line[1..] == [];
    assert NCmp(line[1..], head[1..], |head| - 1) != 0;
  }

  /** Outside all sections a setting is not looked at. */
  lemma Ignored(l: Loaded, q: Pref)
    requires GoodPref(q) && q.value.Some?
    ensures Process(l, {}, SetLine(q)) == (l, {})
  {
    hide Process;
    var w := q.name + [SPACE] + q.value.value;
    assert w == q.name + ([SPACE] + q.value.value);
    assert w[0] == q.name[0] && w[|w| - 1] == q.value.value[|q.value.value| - 1];
    ProcessOne(l, {}, w);
  }

  lemma ServerLinesStep(ss: seq<Server>, i: nat, done: seq<Text>)
    requires i < |ss|
    ensures done + ServerLines(ss[i..]) ==
            done + [[SPACE] + (ss[i].name + [COLON] + Decimal(ss[i].port))] + ServerLines(ss[i + 1..])
  {
    hide Decimal;
    assert ss[i..][1..] == ss[i + 1..];
  }

  lemma NameLinesStep(ns: seq<Text>, i: nat, done: seq<Text>)
    requires i < |ns|
    ensures done + NameLines(ns[i..]) == done + [[SPACE] + ns[i]] + NameLines(ns[i + 1..])
  {
    assert ns[i..][1..] == ns[i + 1..];
  }

  lemma NoServerLines()
    ensures ServerLines([]) == []
  {}

  lemma NoNameLines()
    ensures NameLines([]) == []
  {}

  // ------------------------------------------------------------ the program

  class Client {
    var servers: seq<Server>
    var irc: seq<Text>
    var utmp: seq<Text>
    var preferences: Tree

    function Now(): Loaded
      reads this
    {
      Loaded(servers, irc, utmp, preferences)
    }

    constructor (preferences: Tree)
      ensures Now() == Loaded([], [], [], preferences)
    {
      servers, irc, utmp, this.preferences := [], [], [], preferences;
    }

    /** `AddtoServersList` */
    method AddtoServersList(name: Text, port: nat)
      modifies this`servers
      ensures servers == AddServer(old(servers), name, port)
    {
      hide Cmp;
      var i := 0;
      while i < |servers| && !(Same(servers[i].name, name) && servers[i].port == port)
        invariant 0 <= i <= |servers|
        invariant forall j :: 0 <= j < i ==> !(Same(servers[j].name, name) && servers[j].port == port)
      {
        i := i + 1;
      }
      if i == |servers| {
        servers := servers + [Server(name, port)];
      }
    }

    /** `AddtoNotify`, on either list */
    static method AddtoNotify(list: seq<Text>, str: Text) returns (ns: seq<Text>)
      ensures ns == AddNames(list, Args(str, 10))
    {
      hide Cmp, Args;
      var tok := Args(str, 10);
      ns := list;
      for j := 0 to |tok|
        invariant AddNames(ns, tok[j..]) == AddNames(list, tok)
      {
        assert tok[j..][1..] == tok[j + 1..];
        if |tok[j]| > MAXNICKLEN { continue; }
        var i := 0;
        while i < |ns| && !Same(tok[j], ns[i])
          invariant 0 <= i <= |ns| && forall k :: 0 <= k < i ==> !Same(tok[j], ns[k])
        {
          i := i + 1;
        }
        if i < |ns| { continue; }
        ns := ns + [tok[j]];
      }
    }

    /** `ActuallyProcess` with the sections it calls */
    method ActuallyProcess(line: Text, mode: set<Section>)
      modifies this
      ensures Now() == Processed(old(Now()), mode, line)
    {
      hide Cmp, Token, Set, Args, AddNames, AddServer, Find, AtoulFrom;
      if SERVERS in mode {
        var (s, rest) := Token(line, COLON);
        if rest.Some? {
          AddtoServersList(s, Atoul(rest));
        } else {
          var e := Find(preferences, DEFAULT_PORT);
          AddtoServersList(s, Atoul(match e case Some(d) => d.value case None => None));
        }
      } else if CHANNELS in mode {
      } else if IRCNOTIFY in mode {
        irc := AddtoNotify(irc, line);
      } else if UTMPNOTIFY in mode {
        utmp := AddtoNotify(utmp, line);
      } else if SETS in mode {
        var (s, rest) := Token(line, SPACE);
        if rest.Some? {
          preferences := Set(preferences, s, Wiped(rest.value));
        }
      }
    }

    /** `ProcessConfigfile`: one pass over the file, with the open section. */
    method ProcessConfigfile(lines: seq<Text>) returns (section: set<Section>)
      modifies this
      ensures (Now(), section) == Process(old(Now()), {}, Chopped(lines)) && |section| <= 1
    {
      hide Wiped, Header, Processed, Process, Fgets;
      OneSection(Now(), {}, Chopped(lines));
      section := {};
      var file := lines;
      while file != []
        invariant Process(Now(), section, Chopped(file)) == Process(old(Now()), {}, Chopped(lines))
        decreases Size(file)
      {
        var (piece, rest) := Fgets(file);
        var line := Wiped(piece);
        assert Chopped(file)[1..] == Chopped(rest);
        ProcessStep(Now(), section, Chopped(file));
        file := rest;
        if line != [] && line[0] != HASH {
          if line[0] == BRACKET {
            section := Header(line, section);
          } else {
            ActuallyProcess(line, section);
          }
        }
      }
      ProcessNone(Now(), section);
    }

    /** `WriteSERVERS` */
    method WriteSERVERS() returns (out: seq<Text>)
      ensures out == WriteServers(servers)
    {
      hide Decimal, ServerLines;
      NoServerLines();
      assert servers[0..] == servers;
      out := [SERVERS_HEAD];
      if servers == [] { return; }
      var done: seq<Text> := [];
      for i := 0 to |servers|
        invariant done + ServerLines(servers[i..]) == ServerLines(servers)
      {
        ServerLinesStep(servers, i, done);
        done := done + [[SPACE] + (servers[i].name + [COLON] + Decimal(servers[i].port))];
      }
      assert servers[|servers|..] == [] && done + [] == done;
      out := out + (done + [[]]);
    }

    /** `PrintSETEntries` */
    static method PrintSETEntries(t: Tree) returns (out: seq<Text>)
      ensures out == SetLines(t)
      decreases t
    {
      match t
      case Leaf =>
        out := [];
      case Node(l, e, r) =>
        out := PrintSETEntries(l);
        if e.value.Some? {
          out := out + [LineOf(e)];
        }
        var more := PrintSETEntries(r);
        out := out + more;
    }

    /** `WriteSETS` */
    method WriteSETS() returns (out: seq<Text>)
      ensures out == WriteSets(preferences)
    {
      out := [[], SETS_HEAD];
      var entries := PrintSETEntries(preferences);
      out := out + (entries + [[]]);
    }

    /** `WriteIRCNOTIFY` and `WriteUTMPNOTIFY` */
    static method WriteNOTIFY(head: Text, names: seq<Text>) returns (out: seq<Text>)
      ensures out == WriteNames(head, names)
    {
      hide NameLines;
      NoNameLines();
      assert names[0..] == names;
      out := [[], head];
      if names == [] { return; }
      var done: seq<Text> := [];
      for i := 0 to |names|
        invariant done + NameLines(names[i..]) == NameLines(names)
      {
        NameLinesStep(names, i, done);
        done := done + [[SPACE] + names[i]];
      }
      assert names[|names|..] == [] && done + [] == done;
      out := out + (done + [[]]);
    }
  }

  lemma ProcessStep(l: Loaded, section: set<Section>, lines: seq<Text>)
    requires lines != []
    ensures var line := Wiped(lines[0]);
      Process(l, section, lines) ==
        if line == [] || line[0] == HASH then Process(l, section, lines[1..])
        else if line[0] == BRACKET then Process(l, Header(line, section), lines[1..])
        else Process(Processed(l, section, line), section, lines[1..])
  {
    hide Wiped, Header, Processed;
  }

  /** Saving and reading back, as a program would do it. */
  method SaveAndLoad(c: Client, comments: seq<Text>, fresh0: Tree) returns (d: Client)
    requires WellFormed(c.Now()) && (forall i :: 0 <= i < |comments| ==> Comment(comments[i])) && Short(Written(c.Now(), comments))
    ensures fresh(d) && d.servers == c.servers && d.irc == c.irc && d.utmp == c.utmp
    ensures forall p :: p in Inorder(c.preferences) && Settable(fresh0, p) ==> Restored(d.preferences, p.name, p)
    ensures forall key :: (forall p :: p in Inorder(c.preferences) ==> !(p.value.Some? && Same(p.name, key))) ==>
              Find(d.preferences, key) == Find(fresh0, key)
  {
    hide Chopped, Short, Process, WellFormed, Comment, Settable, Restored, WriteServers, WriteSets, WriteNames, Inorder, Find, Cmp;
    var s := c.WriteSERVERS();
    var t := c.WriteSETS();
    var i := Client.WriteNOTIFY(IRC_HEAD, c.irc);
    var u := Client.WriteNOTIFY(UTMP_HEAD, c.utmp);
    d := new Client(fresh0);
    RoundTrip(c.Now(), comments, fresh0);
    var section := d.ProcessConfigfile(comments + (s + (t + (i + u))));
  }
}
