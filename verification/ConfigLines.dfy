/** What the reader of the configuration file, src/configfile.c, makes of a line, whoever
    has written it: with blanks around it, with several names on it, without a port. */
module ConfigLines {
  import opened CString
  import opened ConfigFile
  import opened Prefs

  /** The bytes of a string. */
  function Bytes(s: string): (t: Text)
    ensures |t| == |s| && forall i :: 0 <= i < |s| ==> t[i] == s[i] as int % 0x100
  {
    if s == [] then [] else [s[0] as int % 0x100] + Bytes(s[1..])
  }

  lemma HeadsAre()
    ensures SERVERS_HEAD == Bytes("[SERVERS]") && CHANNELS_HEAD == Bytes("[CHANNELS]") && SETS_HEAD == Bytes("[SETS]")
    ensures IRC_HEAD == Bytes("[IRC NOTIFY]") && UTMP_HEAD == Bytes("[UTMP NOTIFY]")
    ensures DEFAULT_PORT == Bytes("DEFAULT_SERVER_PORT")
  {
    hide Bytes;
    BytesAre("[SERVERS]", SERVERS_HEAD);
    BytesAre("[CHANNELS]", CHANNELS_HEAD);
    BytesAre("[SETS]", SETS_HEAD);
    BytesAre("[IRC NOTIFY]", IRC_HEAD);
    BytesAre("[UTMP NOTIFY]", UTMP_HEAD);
    BytesAre("DEFAULT_SERVER_PORT", DEFAULT_PORT);
  }

  lemma BytesAre(s: string, t: Text)
    requires |s| == |t| && forall i :: 0 <= i < |s| ==> t[i] == s[i] as int % 0x100
    ensures Bytes(s) == t
  {
    hide Bytes;
  }

  // ----------------------------------------------------------------- blanks

  predicate Blank(s: Text) {
    match s case _ => forall i :: 0 <= i < |s| ==> s[i] in {0x20, 0x09, 0x0A, 0x0D}
  }

  lemma {:induction false} TrimLeftIs(a: Text, w: Text, blank: Byte -> bool)
    requires (forall i :: 0 <= i < |a| ==> blank(a[i])) && (w != [] ==> !blank(w[0]))
    ensures TrimLeft(a + w, blank) == w
    decreases |a|
  {
    if a == [] {
      assert a + w == w;
    } else {
      assert (a + w)[1..] == a[1..] + w;
      TrimLeftIs(a[1..], w, blank);
    }
  }

  lemma {:induction false} TrimRightIs(w: Text, b: Text, blank: Byte -> bool)
    requires (forall i :: 0 <= i < |b| ==> blank(b[i])) && (w != [] ==> !blank(w[|w| - 1]))
    ensures TrimRight(w + b, blank) == w
    decreases |b|
  {
    if b == [] {
      assert w + b == w;
    } else {
      var c := b[..|b| - 1];
      assert (w + b)[..|w + b| - 1] == w + c && (w + b)[|w + b| - 1] == b[|b| - 1];
      TrimRightIs(w, c, blank);
    }
  }

  /** A byte that is not blank stays, with all that is before it. */
  lemma {:induction false} TrimRightKeeps(s: Text, k: nat, blank: Byte -> bool)
    requires k < |s| && !blank(s[k])
    ensures var t := TrimRight(s, blank); k < |t| <= |s| && t == s[..|t|]
    decreases |s|
  {
    if blank(s[|s| - 1]) { TrimRightKeeps(s[..|s| - 1], k, blank); }
  }

  lemma WipedIs(a: Text, w: Text, b: Text)
    requires Blank(a) && Blank(b) && (w == [] || Trimmed(w))
    ensures Wiped(a + w + b) == w
  {
    hide TrimLeft, TrimRight;
    if w == [] {
      assert forall i :: 0 <= i < |a + b| ==> White((a + b)[i]);
      var none: Text := [];
      TrimRightIs(none, a + b, White);
      assert none + (a + b) == a + w + b;
      TrimLeftIs(none, none, White);
      assert none + none == none;
    } else {
      TrimRightIs(a + w, b, White);
      TrimLeftIs(a, w, White);
    }
  }

  lemma WipedStarts(a: Text, c: Byte, rest: Text)
    requires Blank(a) && !White(c)
    ensures Wiped(a + [c] + rest) != [] && Wiped(a + [c] + rest)[0] == c
  {
    hide TrimLeft, TrimRight;
    var s := a + [c] + rest;
    TrimRightKeeps(s, |a|, White);
    var t := TrimRight(s, White);
    assert t == a + t[|a|..];
    TrimLeftIs(a, t[|a|..], White);
  }

  // --------------------------------------------------- comments and headers

  /** A line of blanks and one that starts with `#` behind blanks do nothing, wherever
      they stand. */
  lemma CommentLine(l: Loaded, section: set<Section>, a: Text, rest: Text)
    requires Blank(a)
    ensures Process(l, section, [a]) == (l, section)
    ensures Process(l, section, [a + [0x23] + rest]) == (l, section)
  {
    hide Wiped;
    WipedIs(a, [], []);
    assert a + [] + [] == a;
    WipedStarts(a, 0x23, rest);
    SkipLines(l, section, [a]);
    SkipLines(l, section, [a + [0x23] + rest]);
  }

  function HeadOf(s: Section): Text {
    match s
    case SERVERS => SERVERS_HEAD
    case CHANNELS => CHANNELS_HEAD
    case SETS => SETS_HEAD
    case IRCNOTIFY => IRC_HEAD
    case UTMPNOTIFY => UTMP_HEAD
  }

  /** No line starts with two of the headers. */
  lemma OneHead(line: Text)
    ensures forall s, t :: Begins(line, HeadOf(s)) && Begins(line, HeadOf(t)) ==> s == t
  {
    forall s, t | Begins(line, HeadOf(s)) && Begins(line, HeadOf(t)) ensures s == t {
      assert SameLetter(line[1], HeadOf(s)[1]) && SameLetter(line[1], HeadOf(t)[1]);
      assert SameLetter(line[2], HeadOf(s)[2]) && SameLetter(line[2], HeadOf(t)[2]);
      assert SameLetter(line[3], HeadOf(s)[3]) && SameLetter(line[3], HeadOf(t)[3]);
    }
  }

  /** A header opens its section and closes any other; a header of the section that is
      open already, or of none, closes all. */
  lemma HeaderLine(l: Loaded, section: set<Section>, line: Text)
    requires Wiped(line) != [] && Wiped(line)[0] == 0x5B
    ensures var r := Process(l, section, [line]);
            r.0 == l && forall s :: s in r.1 <==> Begins(Wiped(line), HeadOf(s)) && s !in section
  {
    hide Wiped, NCmp, Begins;
    var w := Wiped(line);
    NCmpBegins(w, HeadOf(SERVERS));
    NCmpBegins(w, HeadOf(CHANNELS));
    NCmpBegins(w, HeadOf(SETS));
    NCmpBegins(w, HeadOf(IRCNOTIFY));
    NCmpBegins(w, HeadOf(UTMPNOTIFY));
    OneHead(w);
    ProcessNone(l, Header(w, section));
    assert [line][1..] == [];
    forall s ensures s in Header(w, section) <==> Begins(w, HeadOf(s)) && s !in section {
      match s { case SERVERS => case CHANNELS => case SETS => case IRCNOTIFY => case UTMPNOTIFY => }
    }
  }

  /** Any other line, with blanks around it. */
  lemma OtherLine(l: Loaded, section: set<Section>, a: Text, w: Text, b: Text)
    requires Blank(a) && Blank(b) && Word(w)
    ensures Process(l, section, [a + w + b]) == (Processed(l, section, w), section)
    ensures section == {} || section == {CHANNELS} ==> Processed(l, section, w) == l
  {
    hide Wiped, Token, Args, AddServer, AddNames, Set;
    WipedIs(a, w, b);
    ProcessNone(Processed(l, section, w), section);
    assert [a + w + b][1..] == [];
  }

  // ---------------------------------------------------------------- servers

  /** The number that the digits at the start of a text make, in 32 bits. */
  lemma NumberMeans(s: Text, d: Byte, rest: Text)
    requires forall i :: 0 <= i < |s| ==> 0x30 <= s[i] <= 0x39
    ensures Atoul(None) == 0 && Atoul(Some([])) == 0
    ensures 0x30 <= d <= 0x39 ==> Atoul(Some(s + [d])) == (Atoul(Some(s)) * 10 + (d - 0x30)) % 0x1_0000_0000
    ensures !(0x30 <= d <= 0x39) ==> Atoul(Some(s + [d] + rest)) == Atoul(Some(s))
  {
    NumberFrom(0, s, d, rest);
  }

  lemma {:induction false} NumberFrom(acc: nat, s: Text, d: Byte, rest: Text)
    requires forall i :: 0 <= i < |s| ==> 0x30 <= s[i] <= 0x39
    ensures 0x30 <= d <= 0x39 ==> AtoulFrom(acc, s + [d]) == (AtoulFrom(acc, s) * 10 + (d - 0x30)) % 0x1_0000_0000
    ensures !(0x30 <= d <= 0x39) ==> AtoulFrom(acc, s + [d] + rest) == AtoulFrom(acc, s)
    decreases |s|
  {
    if s == [] {
      assert s + [d] == [d] && [d][1..] == [] && (s + [d] + rest)[0] == d;
    } else {
      assert (s + [d])[1..] == s[1..] + [d] && (s + [d] + rest)[1..] == s[1..] + [d] + rest;
      NumberFrom((acc * 10 + (s[0] - 0x30)) % ULONG, s[1..], d, rest);
    }
  }

  /** `name` or `name:port`: the server comes last on the list, unless one of that name,
      up to case, and that port is there.  Without a port, the setting that is called
      DEFAULT_SERVER_PORT gives it. */
  lemma ServerLine(l: Loaded, a: Text, name: Text, port: Option<Text>, b: Text)
    requires Blank(a) && Blank(b) && Word(name) && 0x3A !in name
    requires port.Some? && port.value != [] ==> !White(port.value[|port.value| - 1])
    ensures var line := match port case None => name case Some(p) => name + [0x3A] + p;
            var key := Bytes("DEFAULT_SERVER_PORT");
            var given := if port.Some? then port else match Find(l.prefs, key) case Some(e) => e.value case None => None;
            var r := Process(l, {SERVERS}, [a + line + b]);
            && r.1 == {SERVERS} && r.0 == l.(servers := r.0.servers)
            && (if exists i :: 0 <= i < |l.servers| && Same(l.servers[i].name, name) && l.servers[i].port == Atoul(given)
                then r.0.servers == l.servers
                else r.0.servers == l.servers + [Server(name, Atoul(given))])
  {
    hide Wiped, Token, Find, Cmp, Atoul, Bytes;
    var line := match port case None => name case Some(p) => name + [0x3A] + p;
    HeadsAre();
    assert line[0] == name[0] && !White(line[|line| - 1]);
    OtherLine(l, {SERVERS}, a, line, b);
    if port.Some? { TokenOf(name, COLON, port.value); } else { TokenAll(name, COLON); }
  }

  lemma TokenAll(t: Text, c: Byte)
    requires c !in t && (t != [] ==> t[0] != SPACE)
    ensures Token(t, c) == (t, None)
  {
    PositionIs(t, c, |t|);
  }

  // --------------------------------------------------------------- settings

  /** `name value`, with any blanks between them; a name without a value does nothing. */
  lemma SetLineRead(l: Loaded, a: Text, name: Text, b: Text, value: Text, c: Text)
    requires Blank(a) && Blank(b) && Blank(c) && Word(name) && 0x20 !in name && Trimmed(value)
    ensures Process(l, {SETS}, [a + (name + [0x20] + (b + value)) + c]) == (l.(prefs := Set(l.prefs, name, value)), {SETS})
    ensures Process(l, {SETS}, [a + name + c]) == (l, {SETS})
  {
    hide Wiped, Token, Set, Blank;
    var line := name + [0x20] + (b + value);
    assert line[0] == name[0] && line[|line| - 1] == value[|value| - 1];
    assert Word(line);
    OtherLine(l, {SETS}, a, line, c);
    OtherLine(l, {SETS}, a, name, c);
    TokenOf(name, SPACE, b + value);
    TokenAll(name, SPACE);
    BlankNone();
    WipedIs(b, value, []);
    assert b + value + [] == b + value;
  }

  lemma BlankNone()
    ensures Blank([])
  {}

  // ------------------------------------------------------------------ names

  /** Names with blanks around them and commas between them. */
  function Listed(before: seq<Text>, names: seq<Text>, after: seq<Text>): Text
    requires |before| == |names| == |after| && names != []
  {
    var one := before[0] + names[0] + after[0];
    if |names| == 1 then one else one + [0x2C] + Listed(before[1..], names[1..], after[1..])
  }

  predicate Spaces(s: Text) {
    match s case _ => forall i :: 0 <= i < |s| ==> IsSpace(s[i])
  }

  predicate Part(n: Text) {
    n != [] && 0x2C !in n && !IsSpace(n[0]) && !IsSpace(n[|n| - 1])
  }

  function Cut(n: Text): Text { if |n| > 78 then n[..78] else n }

  /** The first ten names of a line are taken, and the first 78 bytes of each. */
  lemma {:induction false} ListedArgs(before: seq<Text>, names: seq<Text>, after: seq<Text>, room: nat)
    requires |before| == |names| == |after| && names != []
    requires forall i :: 0 <= i < |names| ==> Spaces(before[i]) && Part(names[i]) && Spaces(after[i])
    ensures var r := Args(Listed(before, names, after), room);
            && |r| == (if |names| < room then |names| else room)
            && forall i :: 0 <= i < |r| ==> r[i] == Cut(names[i])
    decreases |names|
  {
    hide Args, Spaces, Part, Cut;
    var s := Listed(before, names, after);
    if room > 0 {
      if |names| == 1 {
        LastArg(before[0], names[0], after[0], room);
      } else {
        var rest := Listed(before[1..], names[1..], after[1..]);
        FirstArg(before[0], names[0], after[0], rest, room);
        ListedArgs(before[1..], names[1..], after[1..], room - 1);
      }
    } else {
      NoRoomNoArgs(s);
    }
  }

  lemma NoRoomNoArgs(s: Text)
    ensures Args(s, 0) == []
  {}

  lemma Middle(a: Text, n: Text, b: Text)
    requires Spaces(a) && Part(n) && Spaces(b)
    ensures 0x2C !in n + b
    ensures forall rest: Text :: TrimLeft(a + n + b + rest, IsSpace) == n + b + rest
    ensures TrimRight(n + b, IsSpace) == n
  {
    hide TrimLeft, TrimRight;
    TrimRightIs(n, b, IsSpace);
    forall rest: Text ensures TrimLeft(a + n + b + rest, IsSpace) == n + b + rest {
      assert a + n + b + rest == a + (n + b + rest);
      TrimLeftIs(a, n + b + rest, IsSpace);
    }
  }

  lemma FirstArg(a: Text, n: Text, b: Text, rest: Text, room: nat)
    requires Spaces(a) && Part(n) && Spaces(b) && room > 0
    ensures Args(a + n + b + [0x2C] + rest, room) == [Cut(n)] + Args(rest, room - 1)
  {
    hide Spaces, TrimLeft, TrimRight;
    var s := a + n + b + [0x2C] + rest;
    var q := n + b + [0x2C] + rest;
    Middle(a, n, b);
    assert s == a + n + b + ([0x2C] + rest) && q == n + b + ([0x2C] + rest);
    assert TrimLeft(s, IsSpace) == q;
    PositionIs(q, COMMA, |n + b|);
    assert q[..|n + b|] == n + b && q[|n + b| + 1..] == rest;
  }

  lemma LastArg(a: Text, n: Text, b: Text, room: nat)
    requires Spaces(a) && Part(n) && Spaces(b) && room > 0
    ensures Args(a + n + b, room) == [Cut(n)]
  {
    hide Spaces, TrimLeft, TrimRight;
    var q := n + b;
    Middle(a, n, b);
    assert a + n + b == a + n + b + [] && q == n + b + [];
    PositionIs(q, COMMA, |q|);
    assert q[..|q|] == q;
  }

  /** Names are added one after the other: one of more than 32 bytes or one that is
      there, up to case, is left out. */
  lemma {:induction false} AddedNames(ns: seq<Text>, parts: seq<Text>, p: Text)
    ensures AddNames(ns, []) == ns
    ensures var was := AddNames(ns, parts);
            AddNames(ns, parts + [p]) == if |p| > 32 || exists i :: 0 <= i < |was| && Same(p, was[i]) then was else was + [p]
    decreases |parts|
  {
    hide Cmp;
    if parts == [] {
      var none: seq<Text> := [];
      assert none + [p] == [p] && [p][1..] == none;
    } else {
      var q := parts[0];
      var now := if |q| > MAXNICKLEN || (exists i :: 0 <= i < |ns| && Same(q, ns[i])) then ns else ns + [q];
      assert (parts + [p])[1..] == parts[1..] + [p];
      AddedNames(now, parts[1..], p);
    }
  }

  /** A line of the sections of names. */
  lemma NamesLine(l: Loaded, section: set<Section>, a: Text, before: seq<Text>, names: seq<Text>, after: seq<Text>, c: Text)
    requires section == {IRCNOTIFY} || section == {UTMPNOTIFY}
    requires Blank(a) && Blank(c) && |before| == |names| == |after| && names != [] && Word(Listed(before, names, after))
    requires forall i :: 0 <= i < |names| ==> Spaces(before[i]) && Part(names[i]) && Spaces(after[i])
    ensures exists parts: seq<Text> ::
      && |parts| == (if |names| < 10 then |names| else 10) && (forall i :: 0 <= i < |parts| ==> parts[i] == Cut(names[i]))
      && Process(l, section, [a + Listed(before, names, after) + c])
         == (WithNames(l, section, AddNames(Names(l, section), parts)), section)
  {
    hide Args, Word, Wiped, Spaces, Part, Cut, Listed, AddNames, Process;
    var w := Listed(before, names, after);
    ListedArgs(before, names, after, 10);
    OtherLine(l, section, a, w, c);
    var parts := Args(w, 10);
    assert Processed(l, section, w) == WithNames(l, section, AddNames(Names(l, section), parts));
  }
}
