/** The configuration file: what is printed is what is parsed back, exactly for the values that can be
    told from the syntax around them. */
module Ini {
  import opened Common

  const MAX_LINE := 200
  const MAX_NAME := 50

  predicate Space(c: char) { c == ' ' || 9 <= c as int <= 13 }

  predicate StartsComment(c: char) { c == ';' || c == '#' }

  /** Characters to stop at: = and :, or ], or none. */
  datatype Stops = Assign | Close | Nothing

  predicate Stop(k: Stops, c: char) {
    match k
    case Assign => c == '=' || c == ':'
    case Close => c == ']'
    case Nothing => false
  }

  /** rstrip */
  function RStrip(s: string): string {
    if s != [] && Space(s[|s| - 1]) then RStrip(s[..|s| - 1]) else s
  }

  /** lskip */
  function LSkip(s: string): string {
    if s != [] && Space(s[0]) then LSkip(s[1..]) else s
  }

  /** No space is left at the end, and nothing else is gone. */
  lemma {:induction false} RStripShape(s: string)
    ensures RStrip(s) <= s && (RStrip(s) != [] ==> !Space(RStrip(s)[|RStrip(s)| - 1]))
  {
    if s != [] && Space(s[|s| - 1]) { RStripShape(s[..|s| - 1]); }
  }

  /** No space is left at the beginning, and nothing else is gone. */
  lemma {:induction false} LSkipShape(s: string)
    ensures |LSkip(s)| <= |s| && s[|s| - |LSkip(s)|..] == LSkip(s) && (LSkip(s) != [] ==> !Space(LSkip(s)[0]))
    ensures s != [] && Space(s[0]) ==> |LSkip(s)| < |s|
  {
    if s != [] && Space(s[0]) { LSkipShape(s[1..]); }
  }

  /** find_chars_or_comment: the first character to stop at, or the ; of a comment, which follows a
      space, or the end. */
  function Find(s: string, k: Stops, wasSpace: bool): (i: nat)
    ensures i <= |s|
  {
    if s == [] || Stop(k, s[0]) || (wasSpace && s[0] == ';') then 0 else 1 + Find(s[1..], k, Space(s[0]))
  }

  datatype Item = Blank | Section(name: string) | Pair(name: string, value: string) | More(text: string) | Bad

  /** The value of a pair, from what follows its = or : sign. */
  function ValueOf(s: string): string { RStrip(LSkip(s[..Find(s, Nothing, false)])) }

  /** A line that starts with a bracket. */
  function SectionItem(s: string): Item
    requires s != []
  {
    var e := Find(s[1..], Close, false);
    if e < |s| - 1 && s[1 + e] == ']' then Section(s[1..][..e]) else Bad
  }

  /** A line with a name and a value. */
  function PairItem(s: string): Item {
    var e := Find(s, Assign, false);
    if e < |s| && Stop(Assign, s[e]) then Pair(RStrip(s[..e]), ValueOf(s[e + 1..])) else Bad
  }

  /** A line without the space at its end; pending tells whether there was a name to continue. */
  function Stripped(t: string, pending: bool): Item {
    var s := LSkip(t);
    if s == [] || StartsComment(s[0]) then Blank
    else if pending && |s| < |t| then More(s)
    else if s[0] == '[' then SectionItem(s)
    else PairItem(s)
  }

  /** One line of ini_parse_stream. */
  function Classify(line: string, pending: bool): Item { Stripped(RStrip(line), pending) }

  /** A name that the syntax leaves alone. */
  ghost predicate Word(s: string) {
    s != [] && forall i :: 0 <= i < |s| ==> !Space(s[i]) && !Stop(Assign, s[i]) && !StartsComment(s[i]) && s[i] != '['
  }

  /** A value that the syntax leaves alone: no space around it, and no ; where a comment starts. */
  ghost predicate Clean(v: string) {
    && (v != [] ==> !Space(v[0]) && !Space(v[|v| - 1]))
    && forall i :: 0 <= i < |v| && v[i] == ';' ==> i > 0 && !Space(v[i - 1])
  }

  lemma {:induction false} StripNone(s: string)
    requires s == [] || !Space(s[|s| - 1])
    ensures RStrip(s) == s
  {
  }

  /** Nothing to stop at in a, and no comment. */
  ghost predicate Plain(a: string, k: Stops, was: bool) {
    && (forall i :: 0 <= i < |a| ==> !Stop(k, a[i]))
    && (a != [] && a[0] == ';' ==> !was)
    && (forall i :: 0 < i < |a| && a[i] == ';' ==> !Space(a[i - 1]))
  }

  lemma {:induction false} FindPast(a: string, b: string, k: Stops, was: bool)
    requires Plain(a, k, was)
    ensures Find(a + b, k, was) == |a| + Find(b, k, if a == [] then was else Space(a[|a| - 1]))
  {
    if a == [] {
      assert a + b == b;
    } else {
      var s, c := a + b, a[1..];
      assert s[0] == a[0] && s[1..] == c + b;
      assert forall i :: 0 <= i < |c| ==> c[i] == a[i + 1];
      FindPast(c, b, k, Space(a[0]));
    }
  }

  lemma {:induction false} FindAt(s: string, was: bool)
    ensures var i := Find(s, Nothing, was);
      && (i < |s| ==> s[i] == ';' && if i == 0 then was else Space(s[i - 1]))
      && forall j :: 0 <= j < i && s[j] == ';' ==> if j == 0 then !was else !Space(s[j - 1])
  {
    if s != [] && !(was && s[0] == ';') { FindAt(s[1..], Space(s[0])); }
  }

  /** The text of a setting. */
  function Line(key: string, v: string): string { key + " = " + v }

  lemma KeyEnds(key: string, v: string)
    requires Word(key)
    ensures Find(key + " =" + v, Assign, false) == |key| + 1
  {
    var a, b := key + " ", "=" + v;
    assert key + " =" + v == a + b;
    FindPast(a, b, Assign, false);
  }

  lemma KeyIs(key: string)
    requires Word(key)
    ensures RStrip(key + " ") == key
  {
    assert (key + " ")[..|key|] == key;
    StripNone(key);
  }

  /** What is left of a line when spaces at its end are gone. */
  lemma {:induction false} StripSuffix(a: string, b: string)
    requires a != [] && !Space(a[|a| - 1])
    ensures RStrip(a + b) == a + RStrip(b)
  {
    if b == [] {
      assert a + b == a;
      StripNone(a);
    } else if Space(b[|b| - 1]) {
      assert (a + b)[..|a + b| - 1] == a + b[..|b| - 1];
      StripSuffix(a, b[..|b| - 1]);
    } else {
      StripNone(b);
      StripNone(a + b);
    }
  }

  lemma StrippedPair(t: string, pending: bool)
    requires t != [] && !Space(t[0]) && !StartsComment(t[0]) && t[0] != '['
    ensures Stripped(t, pending) == PairItem(t)
  {
  }

  lemma PairItemIs(t: string, e: nat)
    requires e == Find(t, Assign, false) < |t| && Stop(Assign, t[e])
    ensures PairItem(t) == Pair(RStrip(t[..e]), ValueOf(t[e + 1..]))
  {
  }

  lemma KeyParts(key: string, rest: string)
    requires Word(key)
    ensures
      var t := key + " =" + rest;
      t[0] == key[0] && t[..|key| + 1] == key + " " && t[|key| + 2..] == rest && t[|key| + 1] == '='
  {
  }

  lemma PairLine(line: string, key: string, rest: string, pending: bool)
    requires Word(key) && RStrip(line) == key + " =" + rest
    ensures Classify(line, pending) == Pair(key, ValueOf(rest))
  {
    KeyEnds(key, rest);
    KeyParts(key, rest);
    KeyIs(key);
    var t := key + " =" + rest;
    StrippedPair(t, pending);
    PairItemIs(t, |key| + 1);
  }

  /** A line that is printed is parsed as a pair, whatever came before it and whatever the value. */
  lemma PrintedPair(key: string, v: string, pending: bool)
    requires Word(key)
    ensures Classify(Line(key, v), pending) == Pair(key, ValueOf(RStrip(" " + v)))
  {
    var a, b := key + " =", " " + v;
    assert Line(key, v) == a + b;
    StripSuffix(a, b);
    PairLine(Line(key, v), key, RStrip(b), pending);
  }

  lemma {:induction false} StripKeeps(s: string, j: nat)
    requires j < |s| && !Space(s[j])
    ensures j < |RStrip(s)|
  {
    if Space(s[|s| - 1]) { StripKeeps(s[..|s| - 1], j); }
  }

  lemma SkipOne(v: string)
    requires v != [] ==> !Space(v[0])
    ensures LSkip(" " + v) == v
  {
    assert (" " + v)[1..] == v;
  }

  lemma WholeValue(b: string)
    requires Plain(b, Nothing, false)
    ensures ValueOf(b) == RStrip(LSkip(b))
  {
    FindPast(b, [], Nothing, false);
    assert b + [] == b && b[..|b|] == b;
  }

  lemma CleanPlain(v: string, b: string)
    requires Clean(v) && b == " " + v
    ensures Plain(b, Nothing, false)
  {
    forall i | 0 < i < |b| && b[i] == ';' ensures !Space(b[i - 1]) {
      assert v[i - 1] == ';' && (i > 1 ==> b[i - 1] == v[i - 2]);
    }
  }

  lemma CleanValue(v: string)
    requires Clean(v)
    ensures ValueOf(RStrip(" " + v)) == v
  {
    var b := " " + v;
    if v == [] {
      assert b[..0] == [] && RStrip(b) == [];
    } else {
      StripNone(b);
      CleanPlain(v, b);
      WholeValue(b);
      SkipOne(v);
      StripNone(v);
    }
  }

  /** A value that is parsed has no space around it, and is shorter than what it is cut from. */
  lemma ValueShape(t: string)
    ensures var r := ValueOf(t); r != [] ==> !Space(r[0]) && !Space(r[|r| - 1])
    ensures t != [] && Space(t[0]) && Find(t, Nothing, false) > 0 ==> |ValueOf(t)| < Find(t, Nothing, false)
  {
    var x := t[..Find(t, Nothing, false)];
    var y := LSkip(x);
    LSkipShape(x);
    RStripShape(y);
    if t != [] && Space(t[0]) && x != [] { assert x[0] == t[0] && |y| < |x|; }
    if RStrip(y) != [] { assert RStrip(y)[0] == y[0]; }
  }

  lemma CommentFound(v: string, i: nat)
    requires i < |v| && v[i] == ';' && (i == 0 || Space(v[i - 1]))
    ensures var t := RStrip(" " + v); t != [] && t[0] == ' ' && Find(t, Nothing, false) <= i + 1
  {
    var b := " " + v;
    var t := RStrip(b);
    assert b[i + 1] == ';' && Space(b[i]);
    StripKeeps(b, i + 1);
    RStripShape(b);
    assert t[i + 1] == b[i + 1] && t[i] == b[i] && t[0] == b[0];
    FindAt(t, false);
  }

  /** A comment in the value, or a space around it, is lost. */
  lemma UncleanValue(v: string)
    requires !Clean(v)
    ensures ValueOf(RStrip(" " + v)) != v
  {
    ValueShape(RStrip(" " + v));
    if i :| 0 <= i < |v| && v[i] == ';' && (i == 0 || Space(v[i - 1])) { CommentFound(v, i); }
  }

  /** A value survives printing and parsing if and only if it is clean. */
  lemma ValueExactly(key: string, v: string, pending: bool)
    requires Word(key)
    ensures Classify(Line(key, v), pending) == Pair(key, v) <==> Clean(v)
  {
    PrintedPair(key, v, pending);
    if Clean(v) { CleanValue(v); } else { UncleanValue(v); }
  }

  // ---------- whole files ----------

  /** A setting of the configuration: its section and key, its default, and its value if it has one. */
  datatype Setting = Setting(sec: string, key: string, def: string, value: Option<string>)

  /** unifyfs_config_print_ini, as lines; last is the section printed last. */
  function Printed(cfg: seq<Setting>, last: Option<string>): seq<string> {
    if cfg == [] then []
    else if cfg[0].value.None? then Printed(cfg[1..], last)
    else
      var lines := [Line(cfg[0].key, cfg[0].value.value)] + Printed(cfg[1..], Some(cfg[0].sec));
      if last == Some(cfg[0].sec) then lines else [""] + ([HeaderLine(cfg[0].sec)] + lines)
  }

  function HeaderLine(sec: string): string { "[" + sec + "]" }

  /** inih_config_handler: a setting that has no value yet, or its default, takes the one given. */
  function Handled(cfg: seq<Setting>, sec: string, key: string, v: string): seq<Setting> {
    if cfg == [] then []
    else if cfg[0].sec == sec && cfg[0].key == key then
      [if cfg[0].value.None? || cfg[0].value.value == cfg[0].def then cfg[0].(value := Some(v)) else cfg[0]] + cfg[1..]
    else [cfg[0]] + Handled(cfg[1..], sec, key, v)
  }

  /** ini_parse_stream: the section, the name to continue and the configuration so far. */
  datatype Parser = Parser(sec: string, prev: string, cfg: seq<Setting>)

  /** strncpy0 into a buffer for a name. */
  function Copied(name: string): string { if |name| < MAX_NAME then name else name[..MAX_NAME - 1] }

  function ParsedLine(p: Parser, line: string): Parser { ParsedItem(p, Classify(line, p.prev != [])) }

  function ParsedItem(p: Parser, item: Item): Parser {
    match item
    case Section(name) => p.(sec := Copied(name), prev := [])
    case Pair(name, v) => Parser(p.sec, Copied(name), Handled(p.cfg, p.sec, name, v))
    case More(v) => p.(cfg := Handled(p.cfg, p.sec, p.prev, v))
    case _ => p
  }

  function Parsed(p: Parser, lines: seq<string>): Parser
    decreases lines
  {
    if lines == [] then p else Parsed(ParsedLine(p, lines[0]), lines[1..])
  }

  /** Names of sections and keys, all pairs different. */
  ghost predicate Schema(cfg: seq<Setting>) {
    && (forall i :: 0 <= i < |cfg| ==>
          Word(cfg[i].sec) && Word(cfg[i].key) && ']' !in cfg[i].sec && |cfg[i].sec| < MAX_NAME)
    && (forall i, j :: 0 <= i < j < |cfg| ==> cfg[i].sec != cfg[j].sec || cfg[i].key != cfg[j].key)
  }

  function Emptied(cfg: seq<Setting>): seq<Setting> {
    if cfg == [] then [] else [cfg[0].(value := None)] + Emptied(cfg[1..])
  }

  /** A setting as it is after printing and parsing. */
  function Reread(s: Setting): Setting {
    if s.value.None? then s else s.(value := Some(ValueOf(RStrip(" " + s.value.value))))
  }

  function RereadAll(cfg: seq<Setting>): seq<Setting> {
    if cfg == [] then [] else [Reread(cfg[0])] + RereadAll(cfg[1..])
  }

  lemma SectionLine(sec: string, pending: bool)
    requires Word(sec) && ']' !in sec
    ensures Classify(HeaderLine(sec), pending) == Section(sec)
  {
    var s := HeaderLine(sec);
    StripNone(s);
    assert Stripped(s, pending) == SectionItem(s);
    SectionItemIs(sec);
  }

  lemma SectionItemIs(sec: string)
    requires Word(sec) && ']' !in sec
    ensures SectionItem(HeaderLine(sec)) == Section(sec)
  {
    var s := HeaderLine(sec);
    assert s[1..] == sec + "]";
    FindPast(sec, "]", Close, false);
    assert s[1..][..|sec|] == sec && s[1 + |sec|] == ']';
  }

  /** The handler reaches the first setting with that section and key and no other one; a setting that
      has a value other than its default keeps it. */
  lemma {:induction false} HandledAt(done: seq<Setting>, x: Setting, tail: seq<Setting>, v: string)
    requires forall i :: 0 <= i < |done| ==> done[i].sec != x.sec || done[i].key != x.key
    ensures Handled(done + [x] + tail, x.sec, x.key, v) ==
      done + [if x.value.None? || x.value == Some(x.def) then x.(value := Some(v)) else x] + tail
  {
    var all := done + [x] + tail;
    if done == [] {
      assert all[0] == x && all[1..] == tail;
    } else {
      assert all[0] == done[0] && all[1..] == done[1..] + [x] + tail;
      HandledAt(done[1..], x, tail, v);
    }
  }

  /** A pair for which there is no setting is passed over. */
  lemma {:induction false} HandledNowhere(cfg: seq<Setting>, sec: string, key: string, v: string)
    requires forall i :: 0 <= i < |cfg| ==> cfg[i].sec != sec || cfg[i].key != key
    ensures Handled(cfg, sec, key, v) == cfg
  {
    if cfg != [] { HandledNowhere(cfg[1..], sec, key, v); }
  }

  lemma ParsedNext(p: Parser, line: string, rest: seq<string>)
    ensures Parsed(p, [line] + rest) == Parsed(ParsedLine(p, line), rest)
  {
    assert ([line] + rest)[1..] == rest;
  }

  lemma BlankParsed(p: Parser)
    ensures ParsedLine(p, "") == p
  {
  }

  lemma SectionParsed(p: Parser, line: string, sec: string)
    requires Classify(line, p.prev != []) == Section(sec) && |sec| < MAX_NAME
    ensures ParsedLine(p, line) == Parser(sec, [], p.cfg)
  {
  }

  /** The header of a section puts the parser into it. */
  lemma Header(p: Parser, sec: string, rest: seq<string>)
    requires Word(sec) && ']' !in sec && |sec| < MAX_NAME
    ensures Parsed(p, [""] + ([HeaderLine(sec)] + rest)) == Parsed(Parser(sec, [], p.cfg), rest)
  {
    var line := HeaderLine(sec);
    ParsedNext(p, "", [line] + rest);
    BlankParsed(p);
    ParsedNext(p, line, rest);
    SectionLine(sec, p.prev != []);
    SectionParsed(p, line, sec);
  }

  lemma PairParsed(p: Parser, line: string, key: string, v: string)
    requires Classify(line, p.prev != []) == Pair(key, v)
    ensures ParsedLine(p, line) == Parser(p.sec, Copied(key), Handled(p.cfg, p.sec, key, v))
  {
  }

  lemma OneLine(p: Parser, key: string, v: string, rest: seq<string>)
    requires Word(key)
    ensures Parsed(p, [Line(key, v)] + rest) ==
      Parsed(Parser(p.sec, Copied(key), Handled(p.cfg, p.sec, key, ValueOf(RStrip(" " + v)))), rest)
  {
    PrintedPair(key, v, p.prev != []);
    PairParsed(p, Line(key, v), key, ValueOf(RStrip(" " + v)));
    ParsedNext(p, Line(key, v), rest);
  }

  /** One setting with a value, parsed. */
  lemma ReadOne(p: Parser, done: seq<Setting>, x: Setting, tail: seq<Setting>, more: seq<string>)
    requires Word(x.key) && x.value.Some? && p.sec == x.sec
    requires forall i :: 0 <= i < |done| ==> done[i].sec != x.sec || done[i].key != x.key
    requires p.cfg == done + [x.(value := None)] + Emptied(tail)
    ensures Parsed(p, [Line(x.key, x.value.value)] + more) ==
      Parsed(Parser(x.sec, Copied(x.key), done + [Reread(x)] + Emptied(tail)), more)
  {
    HandledAt(done, x.(value := None), Emptied(tail), Reread(x).value.value);
    OneLine(p, x.key, x.value.value, more);
  }

  lemma Rebracket(done: seq<Setting>, x: Setting, tail: seq<Setting>)
    ensures done + Emptied([x] + tail) == done + [x.(value := None)] + Emptied(tail)
    ensures done + RereadAll([x] + tail) == done + [Reread(x)] + RereadAll(tail)
  {
    assert ([x] + tail)[1..] == tail;
    assert Emptied([x] + tail) == [x.(value := None)] + Emptied(tail);
    assert RereadAll([x] + tail) == [Reread(x)] + RereadAll(tail);
    Regroup(done, x.(value := None), Emptied(tail));
    Regroup(done, Reread(x), RereadAll(tail));
  }

  lemma Regroup(a: seq<Setting>, x: Setting, b: seq<Setting>)
    ensures a + ([x] + b) == a + [x] + b
  {
  }

  /** Parsing what is printed of the rest of a configuration. */
  lemma {:induction false} Reading(p: Parser, done: seq<Setting>, rest: seq<Setting>, last: Option<string>)
    requires Schema(done + rest) && p.cfg == done + Emptied(rest) && (last.Some? ==> p.sec == last.value)
    ensures Parsed(p, Printed(rest, last)).cfg == done + RereadAll(rest)
    decreases |rest|
  {
    if rest == [] {
      assert done + RereadAll(rest) == p.cfg;
    } else {
      var x, tail := rest[0], rest[1..];
      assert rest == [x] + tail;
      SchemaNext(done, x, tail, Reread(x));
      Rebracket(done, x, tail);
      if x.value.None? {
        Reading(p, done + [x], tail, last);
      } else {
        var more := Printed(tail, Some(x.sec));
        var q := if last == Some(x.sec) then p else Parser(x.sec, [], p.cfg);
        if last != Some(x.sec) { Header(p, x.sec, [Line(x.key, x.value.value)] + more); }
        ReadOne(q, done, x, tail, more);
        Reading(Parser(x.sec, Copied(x.key), done + [Reread(x)] + Emptied(tail)), done + [Reread(x)], tail,
          Some(x.sec));
      }
    }
  }

  lemma SchemaNext(done: seq<Setting>, x: Setting, tail: seq<Setting>, y: Setting)
    requires Schema(done + ([x] + tail)) && y.sec == x.sec && y.key == x.key
    ensures Schema((done + [y]) + tail) && Word(x.sec) && Word(x.key) && ']' !in x.sec && |x.sec| < MAX_NAME
    ensures forall i :: 0 <= i < |done| ==> done[i].sec != x.sec || done[i].key != x.key
  {
    var a, b := done + ([x] + tail), (done + [y]) + tail;
    assert a[|done|] == x;
    assert forall i :: 0 <= i < |a| ==> b[i].sec == a[i].sec && b[i].key == a[i].key;
    assert forall i :: 0 <= i < |done| ==> a[i] == done[i];
  }

  /** The value of a setting, if it has one, is clean. */
  ghost predicate Survives(s: Setting) { s.value.Some? ==> Clean(s.value.value) }

  lemma RereadOne(s: Setting)
    ensures Reread(s) == s <==> Survives(s)
  {
    if s.value.Some? {
      if Clean(s.value.value) { CleanValue(s.value.value); } else { UncleanValue(s.value.value); }
    }
  }

  ghost predicate AllSurvive(cfg: seq<Setting>) { forall i :: 0 <= i < |cfg| ==> Survives(cfg[i]) }

  lemma AllSurviveCons(cfg: seq<Setting>)
    requires cfg != []
    ensures AllSurvive(cfg) <==> Survives(cfg[0]) && AllSurvive(cfg[1..])
  {
    assert forall i :: 1 <= i < |cfg| ==> cfg[i] == cfg[1..][i - 1];
    if Survives(cfg[0]) && AllSurvive(cfg[1..]) {
      forall i | 0 <= i < |cfg| ensures Survives(cfg[i]) {
        if i > 0 { assert Survives(cfg[1..][i - 1]); }
      }
    }
  }

  lemma {:induction false} RereadSame(cfg: seq<Setting>)
    ensures RereadAll(cfg) == cfg <==> AllSurvive(cfg)
  {
    if cfg != [] {
      RereadOne(cfg[0]);
      RereadSame(cfg[1..]);
      ConsSame(Reread(cfg[0]), RereadAll(cfg[1..]), cfg);
      AllSurviveCons(cfg);
    }
  }

  lemma ConsSame(x: Setting, r: seq<Setting>, cfg: seq<Setting>)
    requires cfg != []
    ensures [x] + r == cfg <==> x == cfg[0] && r == cfg[1..]
  {
    if [x] + r == cfg { assert ([x] + r)[0] == x && ([x] + r)[1..] == r; }
  }

  /** Parsing what is printed of a configuration into an empty one restores it if and only if every
      value is clean. */
  lemma RoundTripExactly(cfg: seq<Setting>)
    requires Schema(cfg)
    ensures Parsed(Parser([], [], Emptied(cfg)), Printed(cfg, None)).cfg == cfg <==> AllSurvive(cfg)
  {
    assert [] + cfg == cfg && [] + Emptied(cfg) == Emptied(cfg) && [] + RereadAll(cfg) == RereadAll(cfg);
    Reading(Parser([], [], Emptied(cfg)), [], cfg, None);
    RereadSame(cfg);
  }

  // ---------- text ----------

  /** The text of a file with these lines. */
  function Text(lines: seq<string>): string { if lines == [] then "" else lines[0] + "\n" + Text(lines[1..]) }

  /** How much fgets reads: a line with its end, but no more than fits into the buffer. */
  function Chunk(text: string, room: nat): (n: nat)
    requires room > 0
    ensures n <= |text| && (text != [] ==> n > 0)
    decreases room
  {
    if text == [] then 0
    else if text[0] == '\n' || room == 1 then 1
    else 1 + Chunk(text[1..], room - 1)
  }

  function ReadLines(text: string): seq<string> {
    if text == [] then []
    else
      var n := Chunk(text, MAX_LINE - 1);
      [text[..n]] + ReadLines(text[n..])
  }

  /** The most that fits into the buffer. */
  const ROOM: nat := MAX_LINE - 1

  /** What the reader gets of a line: pieces that fill the buffer, and what is left with the end of the line. */
  function Pieces(line: string): seq<string> {
    if |line| < ROOM then [line + "\n"] else [line[..ROOM]] + Pieces(line[ROOM..])
  }

  lemma {:induction false} ChunkIs(line: string, rest: string, room: nat)
    requires 0 < room && '\n' !in line
    ensures Chunk(line + "\n" + rest, room) == if |line| < room then |line| + 1 else room
    decreases |line|
  {
    var t := line + "\n" + rest;
    if line != [] && room > 1 {
      assert t[0] == line[0] && t[1..] == line[1..] + "\n" + rest;
      ChunkIs(line[1..], rest, room - 1);
    }
  }

  lemma {:induction false} PiecesRead(line: string, rest: string)
    requires '\n' !in line
    ensures ReadLines(line + "\n" + rest) == Pieces(line) + ReadLines(rest)
    decreases |line|
  {
    var t := line + "\n" + rest;
    ChunkIs(line, rest, ROOM);
    if |line| < ROOM {
      assert t[..|line| + 1] == line + "\n" && t[|line| + 1..] == rest;
    } else {
      assert t[..ROOM] == line[..ROOM] && t[ROOM..] == line[ROOM..] + "\n" + rest;
      PiecesRead(line[ROOM..], rest);
    }
  }

  function AllPieces(lines: seq<string>): seq<string> {
    if lines == [] then [] else Pieces(lines[0]) + AllPieces(lines[1..])
  }

  /** Reading the text of a file gives the pieces of its lines. */
  lemma {:induction false} LinesRead(lines: seq<string>)
    requires forall i :: 0 <= i < |lines| ==> '\n' !in lines[i]
    ensures ReadLines(Text(lines)) == AllPieces(lines)
  {
    if lines != [] {
      LinesRead(lines[1..]);
      PiecesRead(lines[0], Text(lines[1..]));
    }
  }

  lemma {:induction false} ParsedConcat(p: Parser, a: seq<string>, b: seq<string>)
    ensures Parsed(p, a + b) == Parsed(Parsed(p, a), b)
    decreases |a|
  {
    if a == [] {
      assert a + b == b;
    } else {
      assert (a + b)[0] == a[0] && (a + b)[1..] == a[1..] + b;
      ParsedConcat(ParsedLine(p, a[0]), a[1..], b);
    }
  }

  // ---------- lines that fit ----------

  lemma NewlineStripped(line: string)
    ensures RStrip(line + "\n") == RStrip(line)
  {
    var t := line + "\n";
    assert t[..|t| - 1] == line && Space(t[|t| - 1]);
  }

  lemma SameItem(line: string, pending: bool)
    ensures Classify(line + "\n", pending) == Classify(line, pending)
  {
    NewlineStripped(line);
  }

  ghost predicate AllSpace(x: string) { forall i :: 0 <= i < |x| ==> Space(x[i]) }

  lemma {:induction false} SpaceGone(x: string)
    requires AllSpace(x)
    ensures RStrip(x) == []
  {
    if x != [] { SpaceGone(x[..|x| - 1]); }
  }

  lemma {:induction false} BlankPieces(p: Parser, x: string)
    requires AllSpace(x)
    ensures Parsed(p, Pieces(x)) == p
    decreases |x|
  {
    SpaceGone(x);
    if |x| < ROOM {
      SameItem(x, p.prev != []);
      OnePiece(p, x + "\n", []);
    } else {
      SpaceGone(x[..ROOM]);
      BlankPieces(p, x[ROOM..]);
      OnePiece(p, x[..ROOM], Pieces(x[ROOM..]));
    }
  }

  lemma OnePiece(p: Parser, piece: string, more: seq<string>)
    ensures Parsed(p, [piece] + more) == Parsed(ParsedLine(p, piece), more)
    ensures more == [] ==> [piece] + more == [piece]
  {
    ParsedNext(p, piece, more);
  }

  lemma {:induction false} StripRest(x: string, n: nat)
    requires |RStrip(x)| <= n <= |x|
    ensures RStrip(x[..n]) == RStrip(x) && AllSpace(x[n..])
    decreases |x|
  {
    if n == |x| {
      assert x[..n] == x;
    } else {
      var y := x[..|x| - 1];
      StripRest(y, n);
      assert y[..n] == x[..n];
      forall i | 0 <= i < |x[n..]| ensures Space(x[n..][i]) {
        if i < |y[n..]| { assert y[n..][i] == x[n..][i]; }
      }
    }
  }

  /** The pieces of a line that fits, but for space at its end, are parsed as the line is. */
  lemma PiecesParsed(p: Parser, line: string)
    requires |RStrip(line)| <= ROOM
    ensures Parsed(p, Pieces(line)) == ParsedLine(p, line)
  {
    if |line| < ROOM {
      SameItem(line, p.prev != []);
      OnePiece(p, line + "\n", []);
    } else {
      StripRest(line, ROOM);
      OnePiece(p, line[..ROOM], Pieces(line[ROOM..]));
      BlankPieces(ParsedLine(p, line[..ROOM]), line[ROOM..]);
    }
  }

  lemma {:induction false} AllPiecesParsed(p: Parser, lines: seq<string>)
    requires forall i :: 0 <= i < |lines| ==> |RStrip(lines[i])| <= ROOM
    ensures Parsed(p, AllPieces(lines)) == Parsed(p, lines)
    decreases |lines|
  {
    if lines != [] {
      ParsedConcat(p, Pieces(lines[0]), AllPieces(lines[1..]));
      PiecesParsed(p, lines[0]);
      AllPiecesParsed(ParsedLine(p, lines[0]), lines[1..]);
    }
  }

  // ---------- what parsing can set ----------

  /** The handler gives the value to a setting with that section and key, and to no other one. */
  lemma {:induction false} HandledEach(cfg: seq<Setting>, sec: string, key: string, v: string)
    ensures |Handled(cfg, sec, key, v)| == |cfg|
    ensures forall i :: 0 <= i < |cfg| ==>
      || Handled(cfg, sec, key, v)[i] == cfg[i]
      || (cfg[i].sec == sec && cfg[i].key == key && Handled(cfg, sec, key, v)[i] == cfg[i].(value := Some(v)))
  {
    if cfg != [] && !(cfg[0].sec == sec && cfg[0].key == key) {
      HandledEach(cfg[1..], sec, key, v);
      var h, t := Handled(cfg, sec, key, v), Handled(cfg[1..], sec, key, v);
      assert h == [cfg[0]] + t;
      assert forall i :: 1 <= i < |cfg| ==> h[i] == t[i - 1] && cfg[i] == cfg[1..][i - 1];
    }
  }

  lemma ValueBound(x: string)
    ensures |ValueOf(x)| <= |x| && (x != [] && Space(x[0]) ==> |ValueOf(x)| < |x|)
    ensures forall c :: c in ValueOf(x) ==> c in x
  {
    var y := x[..Find(x, Nothing, false)];
    LSkipShape(y);
    RStripShape(LSkip(y));
  }

  lemma NameBound(x: string)
    ensures |RStrip(x)| <= |x| && (x != [] && Space(x[|x| - 1]) ==> |RStrip(x)| < |x|)
  {
    if x != [] && Space(x[|x| - 1]) { RStripShape(x[..|x| - 1]); }
    RStripShape(x);
  }

  // ---------- values with a newline ----------

  ghost predicate Unbroken(s: Setting) { s.value.Some? ==> '\n' !in s.value.value }

  ghost predicate AllUnbroken(cfg: seq<Setting>) { forall i :: 0 <= i < |cfg| ==> Unbroken(cfg[i]) }

  /** A newline is nowhere but at the end. */
  ghost predicate EndsOnce(c: string) { forall i :: 0 <= i < |c| - 1 ==> c[i] != '\n' }

  lemma {:induction false} ChunkEnds(text: string, room: nat)
    requires room > 0
    ensures EndsOnce(text[..Chunk(text, room)])
    decreases room
  {
    if text != [] && text[0] != '\n' && room > 1 {
      ChunkEnds(text[1..], room - 1);
      var c, d := text[..Chunk(text, room)], text[1..][..Chunk(text[1..], room - 1)];
      assert forall i :: 1 <= i < |c| ==> c[i] == d[i - 1];
    }
  }

  lemma StrippedOnce(c: string)
    requires EndsOnce(c)
    ensures '\n' !in RStrip(c)
  {
    RStripShape(c);
    forall i | 0 <= i < |RStrip(c)| ensures RStrip(c)[i] != '\n' {
      assert RStrip(c)[i] == c[i];
    }
  }

  /** What a line sets is made of its characters. */
  lemma ItemFrom(line: string, pending: bool)
    ensures var item := Classify(line, pending); item.Pair? ==> forall c :: c in item.value ==> c in RStrip(line)
    ensures var item := Classify(line, pending); item.More? ==> forall c :: c in item.text ==> c in RStrip(line)
  {
    var t := RStrip(line);
    var x := LSkip(t);
    LSkipShape(t);
    var e := Find(x, Assign, false);
    if x != [] && e < |x| { ValueBound(x[e + 1..]); }
  }

  lemma StepUnbroken(p: Parser, line: string)
    requires AllUnbroken(p.cfg) && EndsOnce(line)
    ensures AllUnbroken(ParsedLine(p, line).cfg)
  {
    StrippedOnce(line);
    var item := Classify(line, p.prev != []);
    ItemFrom(line, p.prev != []);
    match item
    case Pair(name, v) => HandledEach(p.cfg, p.sec, name, v);
    case More(v) => HandledEach(p.cfg, p.sec, p.prev, v);
    case _ =>
  }

  lemma {:induction false} ReadUnbroken(p: Parser, text: string)
    requires AllUnbroken(p.cfg)
    ensures AllUnbroken(Parsed(p, ReadLines(text)).cfg)
    decreases |text|
  {
    if text != [] {
      var n := Chunk(text, MAX_LINE - 1);
      ChunkEnds(text, MAX_LINE - 1);
      StepUnbroken(p, text[..n]);
      ParsedNext(p, text[..n], ReadLines(text[n..]));
      ReadUnbroken(ParsedLine(p, text[..n]), text[n..]);
    }
  }

  // ---------- lines that do not fit ----------

  /** No setting with this key has this value. */
  ghost predicate Missing(cfg: seq<Setting>, key: string, v: string) {
    forall i :: 0 <= i < |cfg| ==> cfg[i].key == key ==> cfg[i].value != Some(v)
  }

  /** A line that does not set a key to this value. */
  ghost predicate Harmless(line: string, pending: bool, key: string, v: string) {
    Classify(line, pending) != Pair(key, v) && (|key| < MAX_NAME ==> Classify(line, pending) != More(v))
  }

  lemma StepMissing(p: Parser, line: string, key: string, v: string)
    requires |p.prev| < MAX_NAME && Missing(p.cfg, key, v) && Harmless(line, p.prev != [], key, v)
    ensures var q := ParsedLine(p, line); |q.prev| < MAX_NAME && Missing(q.cfg, key, v)
  {
    match Classify(line, p.prev != [])
    case Pair(name, w) => HandledEach(p.cfg, p.sec, name, w);
    case More(w) => HandledEach(p.cfg, p.sec, p.prev, w);
    case _ =>
  }

  ghost predicate AllHarmless(lines: seq<string>, key: string, v: string) {
    forall i, b :: 0 <= i < |lines| ==> Harmless(lines[i], b, key, v)
  }

  lemma {:induction false} ParsedMissing(p: Parser, lines: seq<string>, key: string, v: string)
    requires |p.prev| < MAX_NAME && Missing(p.cfg, key, v) && AllHarmless(lines, key, v)
    ensures Missing(Parsed(p, lines).cfg, key, v)
    decreases |lines|
  {
    if lines != [] {
      StepMissing(p, lines[0], key, v);
      ParsedMissing(ParsedLine(p, lines[0]), lines[1..], key, v);
    }
  }

  /** A line that, but for space at its end, is longer than the buffer. */
  predicate TooLong(key: string, v: string) { |RStrip(Line(key, v))| > ROOM }

  lemma TooLongBound(key: string, v: string)
    requires TooLong(key, v)
    ensures |key| + 3 + |v| > ROOM && (v == [] ==> |key| + 2 > ROOM)
  {
    NameBound(Line(key, v));
  }

  lemma {:induction false} FindBefore(s: string, k: Stops, was: bool)
    ensures forall j :: 0 <= j < Find(s, k, was) ==> !Stop(k, s[j])
  {
    if s != [] && !Stop(k, s[0]) && !(was && s[0] == ';') {
      FindBefore(s[1..], k, Space(s[0]));
      assert forall j :: 1 <= j < |s| ==> s[j] == s[1..][j - 1];
    }
  }

  /** Where the parts of a pair are in a piece: x is the piece from place at on, with its sign at place e. */
  lemma PairParts(c: string, pending: bool) returns (at: nat, x: string, e: nat)
    requires Classify(c, pending).Pair?
    ensures at + |x| <= |c| && x == c[at..at + |x|] && x != [] && !Space(x[0])
    ensures c != [] && !Space(c[0]) ==> at == 0
    ensures e < |x| && Stop(Assign, x[e]) && forall j :: 0 <= j < e ==> !Stop(Assign, x[j])
    ensures Classify(c, pending) == Pair(RStrip(x[..e]), ValueOf(x[e + 1..]))
  {
    var t := RStrip(c);
    x := LSkip(t);
    e := Find(x, Assign, false);
    at := Skipped(c);
    FindBefore(x, Assign, false);
  }

  /** How many characters are skipped before what is left of a line. */
  lemma Skipped(c: string) returns (at: nat)
    ensures
      var x := LSkip(RStrip(c));
      && at + |x| <= |c| && x == c[at..at + |x|] && (x != [] ==> !Space(x[0]))
      && (x != [] && c != [] && !Space(c[0]) ==> at == 0)
  {
    var t := RStrip(c);
    RStripShape(c);
    LSkipShape(t);
    at := |t| - |LSkip(t)|;
    assert t == c[..|t|] && LSkip(t) == t[at..];
    assert t != [] ==> t[0] == c[0];
  }

  /** A pair found in a piece of a line: it fits into the buffer as a line, or it is inside of the value. */
  lemma {:induction false} PieceOfLine(key: string, v: string, a: nat, b: nat, pending: bool)
    requires Word(key) && a <= b <= |Line(key, v)| && b - a <= ROOM && Classify(Line(key, v)[a..b], pending).Pair?
    ensures
      var item := Classify(Line(key, v)[a..b], pending);
      || item.name == [] || |item.name| + 3 + |item.value| <= ROOM
      || (item.value == [] && |item.name| + 2 <= ROOM)
      || (a > 0 && |item.name| + 1 + |item.value| <= |v|)
  {
    var line := Line(key, v);
    var at, x, e := PairParts(line[a..b], pending);
    LineAt(key, v);
    SignInLine(line, |key|, a, at, x, e);
  }

  /** A pair found in a piece of a line with its sign at k + 1, the name up to k and the value from k + 3 on. */
  lemma SignInLine(line: string, k: nat, a: nat, at: nat, x: string, e: nat)
    requires k + 3 <= |line| && line[k] == ' ' && line[k + 1] == '=' && line[k + 2] == ' '
    requires !Space(line[0]) && forall i :: 0 <= i < k ==> !Stop(Assign, line[i])
    requires a + at + |x| <= |line| && x == line[a + at..a + at + |x|] && (a == 0 ==> at == 0)
    requires e < |x| && Stop(Assign, x[e]) && !Space(x[0]) && forall j :: 0 <= j < e ==> !Stop(Assign, x[j])
    ensures
      var name, value := RStrip(x[..e]), ValueOf(x[e + 1..]);
      || name == [] || |name| + 3 + |value| <= |x| || (value == [] && |name| + 2 <= |x|)
      || (a > 0 && |name| + 1 + |value| <= |line| - (k + 3))
  {
    assert forall j :: 0 <= j < |x| ==> x[j] == line[a + at + j];
    if a + at <= k + 1 < a + at + |x| { FirstSign(x, e, k + 1 - (a + at)); }
    if a + at + e == k + 1 {
      OwnSign(x, e, if e > 0 then line[k] else ' ', if e + 1 < |x| then line[k + 2] else ' ');
    } else {
      assert x[e] == line[a + at + e] && x[0] == line[a + at];
      OtherSign(x, e);
    }
  }

  lemma OtherSign(x: string, e: nat)
    requires e < |x|
    ensures |RStrip(x[..e])| + 1 + |ValueOf(x[e + 1..])| <= |x|
  {
    NameBound(x[..e]);
    ValueBound(x[e + 1..]);
  }

  lemma FirstSign(x: string, e: nat, j: nat)
    requires e < |x| && j < |x| && Stop(Assign, x[j]) && forall i :: 0 <= i < e ==> !Stop(Assign, x[i])
    ensures e <= j
  {
  }

  /** The lengths of a name and a value with space around the sign. */
  lemma OwnSign(x: string, e: nat, c: char, d: char)
    requires e < |x| && Space(c) && Space(d) && (e > 0 ==> x[e - 1] == c) && (e + 1 < |x| ==> x[e + 1] == d)
    ensures
      var name, value := RStrip(x[..e]), ValueOf(x[e + 1..]);
      name == [] || |name| + 3 + |value| <= |x| || (value == [] && |name| + 2 <= |x|)
  {
    NameBound(x[..e]);
    ValueBound(x[e + 1..]);
  }

  lemma LineAt(key: string, v: string)
    requires Word(key)
    ensures
      var line := Line(key, v);
      && |line| == |key| + 3 + |v| && line[|key|] == ' ' && line[|key| + 1] == '=' && line[|key| + 2] == ' '
      && !Space(line[0]) && forall i :: 0 <= i < |key| ==> !Stop(Assign, line[i])
  {
    var line := Line(key, v);
    assert forall i :: 0 <= i < |key| ==> line[i] == key[i];
  }

  lemma {:induction false} PieceAt(line: string, i: nat) returns (a: nat, b: nat)
    requires i < |Pieces(line)|
    ensures a <= b <= |line| && b - a <= ROOM && (a == 0 || a >= ROOM)
    ensures Pieces(line)[i] == line[a..b] || Pieces(line)[i] == line[a..b] + "\n"
    decreases |line|
  {
    if |line| < ROOM {
      a, b := 0, |line|;
      assert line[..] == line;
    } else if i == 0 {
      a, b := 0, ROOM;
    } else {
      a, b := PieceAt(line[ROOM..], i - 1);
      assert line[ROOM..][a..b] == line[a + ROOM..b + ROOM];
      a, b := a + ROOM, b + ROOM;
    }
  }

  /** Behind the buffer there is only space, if the line is not too long. */
  lemma BehindBlank(line: string, a: nat, b: nat, pending: bool)
    requires |RStrip(line)| <= ROOM <= a <= b <= |line|
    ensures Classify(line[a..b], pending) == Blank
  {
    StripRest(line, ROOM);
    var y := line[a..b];
    forall i | 0 <= i < |y| ensures Space(y[i]) {
      assert y[i] == line[ROOM..][a - ROOM + i];
    }
    SpaceGone(y);
  }

  lemma MoreBound(c: string, pending: bool)
    requires Classify(c, pending).More?
    ensures c != [] && Space(c[0]) && |Classify(c, pending).text| < |c|
  {
    RStripShape(c);
    var t := RStrip(c);
    LSkipShape(t);
    assert t[0] == c[0];
  }

  /** This pair is the longest of those that are too long. */
  ghost predicate Longest(key: string, w: string, k: string, v: string) {
    TooLong(k, v) ==> |Line(k, v)| <= |Line(key, w)|
  }

  lemma PartHarmless(k: string, v: string, a: nat, b: nat, pending: bool, key: string, w: string)
    requires Word(k) && Word(key) && TooLong(key, w) && Longest(key, w, k, v)
    requires a <= b <= |Line(k, v)| && b - a <= ROOM && (a == 0 || a >= ROOM)
    ensures Harmless(Line(k, v)[a..b], pending, key, w)
  {
    var c := Line(k, v)[a..b];
    LineAt(k, v);
    TooLongBound(key, w);
    if !TooLong(k, v) && a > 0 { BehindBlank(Line(k, v), a, b, pending); }
    if Classify(c, pending) == Pair(key, w) { PieceOfLine(k, v, a, b, pending); }
    if Classify(c, pending) == More(w) { MoreBound(c, pending); }
  }

  lemma PieceHarmless(k: string, v: string, i: nat, pending: bool, key: string, w: string)
    requires Word(k) && Word(key) && TooLong(key, w) && Longest(key, w, k, v) && i < |Pieces(Line(k, v))|
    ensures Harmless(Pieces(Line(k, v))[i], pending, key, w)
  {
    var a, b := PieceAt(Line(k, v), i);
    PartHarmless(k, v, a, b, pending, key, w);
    SameItem(Line(k, v)[a..b], pending);
  }

  lemma ConcatHarmless(a: seq<string>, b: seq<string>, key: string, w: string)
    requires AllHarmless(a, key, w) && AllHarmless(b, key, w)
    ensures AllHarmless(a + b, key, w)
  {
  }

  lemma LineHarmless(k: string, v: string, key: string, w: string)
    requires Word(k) && Word(key) && TooLong(key, w) && Longest(key, w, k, v)
    ensures AllHarmless(Pieces(Line(k, v)), key, w)
  {
    forall i, b | 0 <= i < |Pieces(Line(k, v))| ensures Harmless(Pieces(Line(k, v))[i], b, key, w) {
      PieceHarmless(k, v, i, b, key, w);
    }
  }

  /** The lines between settings set nothing. */
  lemma HeadHarmless(sec: string, key: string, w: string)
    requires Word(sec) && ']' !in sec && |sec| < MAX_NAME
    ensures AllHarmless(Pieces("") + Pieces(HeaderLine(sec)), key, w)
  {
    var line := HeaderLine(sec);
    assert Pieces("") == ["" + "\n"] && Pieces(line) == [line + "\n"];
    forall b: bool ensures Harmless("" + "\n", b, key, w) && Harmless(line + "\n", b, key, w) {
      SameItem("", b);
      SameItem(line, b);
      SectionLine(sec, b);
    }
  }

  /** Names that the syntax leaves alone. */
  ghost predicate Named(s: Setting) {
    Word(s.sec) && Word(s.key) && ']' !in s.sec && |s.sec| < MAX_NAME
  }

  ghost predicate NoneLonger(cfg: seq<Setting>, key: string, w: string) {
    forall i :: 0 <= i < |cfg| && cfg[i].value.Some? ==> Longest(key, w, cfg[i].key, cfg[i].value.value)
  }

  lemma {:induction false} PrintedHarmless(cfg: seq<Setting>, last: Option<string>, key: string, w: string)
    requires (forall i :: 0 <= i < |cfg| ==> Named(cfg[i])) && Word(key) && TooLong(key, w) && NoneLonger(cfg, key, w)
    ensures AllHarmless(AllPieces(Printed(cfg, last)), key, w)
    decreases |cfg|
  {
    if cfg != [] {
      var x, tail := cfg[0], cfg[1..];
      if x.value.None? {
        PrintedHarmless(tail, last, key, w);
      } else {
        var line, rest := Line(x.key, x.value.value), Printed(tail, Some(x.sec));
        PrintedHarmless(tail, Some(x.sec), key, w);
        LineHarmless(x.key, x.value.value, key, w);
        PiecesCons(line, rest);
        ConcatHarmless(Pieces(line), AllPieces(rest), key, w);
        if last != Some(x.sec) {
          HeadHarmless(x.sec, key, w);
          PiecesHead(x.sec, [line] + rest);
          ConcatHarmless(Pieces("") + Pieces(HeaderLine(x.sec)), AllPieces([line] + rest), key, w);
        }
      }
    }
  }

  lemma PiecesCons(line: string, rest: seq<string>)
    ensures AllPieces([line] + rest) == Pieces(line) + AllPieces(rest)
  {
    assert ([line] + rest)[1..] == rest;
  }

  lemma PiecesHead(sec: string, lines: seq<string>)
    ensures AllPieces([""] + ([HeaderLine(sec)] + lines)) == Pieces("") + Pieces(HeaderLine(sec)) + AllPieces(lines)
  {
    PiecesCons("", [HeaderLine(sec)] + lines);
    PiecesCons(HeaderLine(sec), lines);
  }

  /** The line of a setting, if it has one, fits into the buffer. */
  ghost predicate FitsRoom(s: Setting) { s.value.Some? ==> !TooLong(s.key, s.value.value) }

  lemma {:induction false} LongestOne(cfg: seq<Setting>) returns (m: nat)
    requires exists i :: 0 <= i < |cfg| && !FitsRoom(cfg[i])
    ensures m < |cfg| && !FitsRoom(cfg[m]) && NoneLonger(cfg, cfg[m].key, cfg[m].value.value)
  {
    var n := |cfg| - 1;
    var k, x := cfg[..n], cfg[n];
    assert forall i :: 0 <= i < n ==> k[i] == cfg[i];
    if exists i :: 0 <= i < n && !FitsRoom(k[i]) {
      m := LongestOne(k);
      if !FitsRoom(x) && |Line(cfg[m].key, cfg[m].value.value)| < |Line(x.key, x.value.value)| { m := n; }
    } else {
      m := n;
      assert forall i :: 0 <= i < n ==> FitsRoom(cfg[i]);
    }
  }

  /** The lines of a configuration, and whether they are one line each and fit. */
  lemma {:induction false} PrintedLines(cfg: seq<Setting>, last: Option<string>)
    requires forall i :: 0 <= i < |cfg| ==> Named(cfg[i])
    ensures AllUnbroken(cfg) ==> forall i :: 0 <= i < |Printed(cfg, last)| ==> '\n' !in Printed(cfg, last)[i]
    ensures (forall i :: 0 <= i < |cfg| ==> FitsRoom(cfg[i])) ==>
      forall i :: 0 <= i < |Printed(cfg, last)| ==> |RStrip(Printed(cfg, last)[i])| <= ROOM
    decreases |cfg|
  {
    if cfg != [] {
      var x, tail := cfg[0], cfg[1..];
      PrintedLines(tail, if x.value.None? then last else Some(x.sec));
      assert forall i :: 0 <= i < |tail| ==> tail[i] == cfg[i + 1];
      NameBound(HeaderLine(x.sec));
      assert '\n' !in x.key && '\n' !in x.sec;
      if x.value.Some? { assert Unbroken(x) ==> '\n' !in Line(x.key, x.value.value); }
    }
  }

  /** A setting whose value survives printing and parsing, fits into the buffer and is one line. */
  ghost predicate Kept(s: Setting) { Survives(s) && FitsRoom(s) && Unbroken(s) }

  lemma TooLongLost(cfg: seq<Setting>)
    requires Schema(cfg) && AllUnbroken(cfg) && exists i :: 0 <= i < |cfg| && !FitsRoom(cfg[i])
    ensures Parsed(Parser([], [], Emptied(cfg)), ReadLines(Text(Printed(cfg, None)))).cfg != cfg
  {
    var m := LongestOne(cfg);
    PrintedLines(cfg, None);
    LinesRead(Printed(cfg, None));
    LongestLost(cfg, m, AllPieces(Printed(cfg, None)));
  }

  lemma LongestLost(cfg: seq<Setting>, m: nat, pieces: seq<string>)
    requires m < |cfg| && (forall i :: 0 <= i < |cfg| ==> Named(cfg[i])) && pieces == AllPieces(Printed(cfg, None))
    requires !FitsRoom(cfg[m]) && NoneLonger(cfg, cfg[m].key, cfg[m].value.value)
    ensures Parsed(Parser([], [], Emptied(cfg)), pieces).cfg != cfg
  {
    var key, w := cfg[m].key, cfg[m].value.value;
    PrintedHarmless(cfg, None, key, w);
    EmptiedNone(cfg);
    ParsedMissing(Parser([], [], Emptied(cfg)), pieces, key, w);
  }

  lemma {:induction false} EmptiedNone(cfg: seq<Setting>)
    ensures |Emptied(cfg)| == |cfg| && forall i :: 0 <= i < |cfg| ==> Emptied(cfg)[i].value == None
  {
    if cfg != [] { EmptiedNone(cfg[1..]); }
  }

  /** Reading the text of the file, through the buffer of the reader, restores the configuration if and
      only if every value survives, is one line, and fits into the buffer with its key. */
  lemma TextRoundTripExactly(cfg: seq<Setting>)
    requires Schema(cfg)
    ensures Parsed(Parser([], [], Emptied(cfg)), ReadLines(Text(Printed(cfg, None)))).cfg == cfg <==>
      forall i :: 0 <= i < |cfg| ==> Kept(cfg[i])
  {
    var p, lines := Parser([], [], Emptied(cfg)), Printed(cfg, None);
    EmptiedNone(cfg);
    if !AllUnbroken(cfg) {
      ReadUnbroken(p, Text(lines));
    } else if exists i :: 0 <= i < |cfg| && !FitsRoom(cfg[i]) {
      TooLongLost(cfg);
    } else {
      PrintedLines(cfg, None);
      LinesRead(lines);
      AllPiecesParsed(p, lines);
      RoundTripExactly(cfg);
      assert forall i :: 0 <= i < |cfg| ==> FitsRoom(cfg[i]) && Unbroken(cfg[i]);
    }
  }

  // ---------- any line ----------

  /** Nothing but white space. */
  ghost predicate White(s: string) { forall i :: 0 <= i < |s| ==> s[i] == ' ' || '\t' <= s[i] <= '\r' }

  lemma {:induction false} SkipWhite(a: string, b: string)
    requires White(a) && (b != [] ==> !Space(b[0]))
    ensures LSkip(a + b) == b
  {
    if a == [] {
      assert a + b == b;
    } else {
      assert (a + b)[0] == a[0] && (a + b)[1..] == a[1..] + b;
      SkipWhite(a[1..], b);
    }
  }

  lemma StripWhite(a: string, b: string)
    requires White(b) && (a != [] ==> !Space(a[|a| - 1]))
    ensures RStrip(a + b) == a
  {
    SpaceGone(b);
    if a == [] { assert a + b == b; } else { StripSuffix(a, b); }
  }

  /** A line whose first character that is no white space is not one to be stripped. */
  lemma {:induction false} Trimmed(a: string, c: char, rest: string, pending: bool)
    requires White(a) && !Space(c)
    ensures Classify(a + [c] + rest, pending) ==
      if StartsComment(c) then Blank
      else if pending && a != [] then More([c] + RStrip(rest))
      else if c == '[' then SectionItem([c] + RStrip(rest)) else PairItem([c] + RStrip(rest))
  {
    var x := a + [c];
    StripSuffix(x, rest);
    assert x + RStrip(rest) == a + ([c] + RStrip(rest));
    SkipWhite(a, [c] + RStrip(rest));
  }

  /** A comment line changes nothing, whatever white space it starts with. */
  lemma CommentLine(p: Parser, a: string, c: char, rest: string)
    requires White(a) && (c == '#' || c == ';')
    ensures ParsedLine(p, a + [c] + rest) == p
  {
    Trimmed(a, c, rest, p.prev != []);
  }

  /** Nor does a line of white space. */
  lemma WhiteLine(p: Parser, a: string)
    requires White(a)
    ensures ParsedLine(p, a) == p
  {
    SpaceGone(a);
  }

  /** What ends a value: white space, and a comment if that is behind some. */
  ghost predicate Tail(t: string, w: nat) {
    w <= |t| && White(t[..w]) && (w < |t| ==> w > 0 && t[w] == ';')
  }

  lemma {:induction false} ValueBefore(b: string, v: string, t: string, w: nat)
    requires White(b) && Clean(v) && Tail(t, w)
    ensures ValueOf(RStrip(b + v + t)) == v
  {
    var bv := b + v;
    if w == |t| {
      assert t[..w] == t;
      if v == [] {
        assert bv + t == [] + (b + t) && White(b + t);
        StripWhite([], b + t);
      } else {
        StripWhite(bv, t);
        WholePlain(b, v, []);
        assert bv + [] == bv;
        WholeValue(bv);
        SkipWhite(b, v);
        StripNone(v);
      }
    } else {
      CommentBehind(b, v, t[..w], t[w + 1..]);
      assert bv + t == bv + t[..w] + ";" + t[w + 1..];
    }
  }

  lemma WholePlain(b: string, v: string, w: string)
    requires White(b) && Clean(v) && White(w)
    ensures Plain(b + v + w, Nothing, false)
  {
    var s := b + v + w;
    forall i | 0 < i < |s| && s[i] == ';' ensures !Space(s[i - 1]) {
      assert |b| <= i < |b| + |v| && v[i - |b|] == ';' && s[i - 1] == v[i - |b| - 1];
    }
    if s != [] && b == [] && v != [] { assert s[0] == v[0]; }
  }

  lemma {:induction false} CommentBehind(b: string, v: string, w: string, c: string)
    requires White(b) && Clean(v) && White(w) && w != []
    ensures ValueOf(RStrip(b + v + w + ";" + c)) == v
  {
    var x := b + v + w;
    var y := x + ";";
    StripSuffix(y, c);
    var r := y + RStrip(c);
    assert r == x + (";" + RStrip(c));
    WholePlain(b, v, w);
    FindPast(x, ";" + RStrip(c), Nothing, false);
    assert Space(x[|x| - 1]) && r[..|x|] == x;
    if v == [] {
      assert x == (b + w) + [] && White(b + w);
      SkipWhite(b + w, []);
    } else {
      assert x == b + (v + w);
      SkipWhite(b, v + w);
      StripWhite(v, w);
    }
  }

  /** A line with a name, = or :, and a value, with white space around each of them and a comment behind:
      the setting of that name takes the value. It is no continuation if it starts with the name, or if
      there is nothing to continue. */
  lemma {:induction false} PairAnywhere(p: Parser, l: string, key: string, a: string, sign: char, b: string, v: string,
                                        t: string, w: nat)
    requires White(l) && Word(key) && White(a) && (sign == '=' || sign == ':') && White(b) && Clean(v) && Tail(t, w)
    requires l == [] || p.prev == []
    ensures ParsedLine(p, l + key + a + [sign] + b + v + t) ==
      Parser(p.sec, if |key| < 50 then key else key[..49], Handled(p.cfg, p.sec, key, v))
  {
    var x, y := key + a + [sign], b + v + t;
    Parts(l, key, a, [sign], b, v, t);
    ValueBefore(b, v, t, w);
    SignFound(key, a, sign, RStrip(y));
    assert x[0] == key[0];
    PairIn(p, l, x, y, key, v);
  }

  lemma Parts(l: string, key: string, a: string, sign: string, b: string, v: string, t: string)
    ensures l + key + a + sign + b + v + t == l + ((key + a + sign) + (b + v + t))
  {
  }

  lemma PairIn(p: Parser, l: string, x: string, y: string, key: string, v: string)
    requires White(l) && (l == [] || p.prev == []) && PairItem(x + RStrip(y)) == Pair(key, v)
    requires x != [] && !Space(x[0]) && !Space(x[|x| - 1]) && !StartsComment(x[0]) && x[0] != '['
    ensures ParsedLine(p, l + (x + y)) ==
      Parser(p.sec, if |key| < 50 then key else key[..49], Handled(p.cfg, p.sec, key, v))
  {
    FirstOf(l, x, y, p.prev != []);
  }

  /** The item of a line of white space, a text x that does not end in any, and a text y. */
  lemma {:induction false} FirstOf(l: string, x: string, y: string, pending: bool)
    requires White(l) && x != [] && !Space(x[0]) && !Space(x[|x| - 1]) && !StartsComment(x[0])
    ensures Classify(l + (x + y), pending) ==
      if pending && l != [] then More(x + RStrip(y))
      else if x[0] == '[' then SectionItem(x + RStrip(y)) else PairItem(x + RStrip(y))
  {
    StripSuffix(l + x, y);
    Rejoin(l, x, y);
    Rejoin(l, x, RStrip(y));
    SkipWhite(l, x + RStrip(y));
    StrippedFirst(l, x + RStrip(y), pending);
  }

  lemma Rejoin(a: string, b: string, c: string)
    ensures a + (b + c) == (a + b) + c
  {
  }

  lemma StrippedFirst(l: string, x: string, pending: bool)
    requires x != [] && !StartsComment(x[0]) && LSkip(l + x) == x
    ensures Stripped(l + x, pending) ==
      if pending && l != [] then More(x) else if x[0] == '[' then SectionItem(x) else PairItem(x)
  {
  }

  lemma SignFound(key: string, a: string, sign: char, rest: string)
    requires Word(key) && White(a) && (sign == '=' || sign == ':')
    ensures PairItem(key + a + [sign] + rest) == Pair(key, ValueOf(rest))
  {
    var x := key + a;
    var s := x + [sign] + rest;
    assert s == x + ([sign] + rest);
    FindPast(x, [sign] + rest, Assign, false);
    assert s[..|x|] == x && s[|x| + 1..] == rest;
    StripWhite(key, a);
  }

  /** A line that starts with white space continues the setting before it. */
  lemma {:induction false} Continued(p: Parser, a: string, v: string, b: string)
    requires White(a) && a != [] && p.prev != [] && White(b)
    requires v != [] && !Space(v[0]) && !Space(v[|v| - 1]) && !StartsComment(v[0])
    ensures ParsedLine(p, a + v + b) == Parser(p.sec, p.prev, Handled(p.cfg, p.sec, p.prev, v))
  {
    assert a + v + b == a + (v + b);
    FirstOf(a, v, b, true);
    SpaceGone(b);
    assert v + [] == v;
  }

  /** A section starts, whatever follows the bracket that closes its name. */
  lemma SectionAnywhere(p: Parser, l: string, name: string, rest: string)
    requires White(l) && (l == [] || p.prev == []) && Plain(name, Close, false)
    ensures ParsedLine(p, l + "[" + name + "]" + rest) ==
      Parser(if |name| < 50 then name else name[..49], [], p.cfg)
  {
    var x := name + "]" + rest;
    assert l + "[" + name + "]" + rest == l + ['['] + x;
    Trimmed(l, '[', x, p.prev != []);
    StripSuffix(name + "]", rest);
    var s := ['['] + RStrip(x);
    assert s[1..] == name + ("]" + RStrip(rest));
    FindPast(name, "]" + RStrip(rest), Close, false);
    assert s[1..][..|name|] == name && s[1 + |name|] == ']';
  }

  /** So is a section line whose name does not end. */
  lemma NoBracket(p: Parser, l: string, rest: string)
    requires White(l) && (l == [] || p.prev == []) && ']' !in rest
    ensures ParsedLine(p, l + ['['] + rest) == p
  {
    Trimmed(l, '[', rest, p.prev != []);
    var s := ['['] + RStrip(rest);
    RStripShape(rest);
    assert forall i :: 1 <= i < |s| ==> s[i] == rest[i - 1];
  }

  /** A line without = and : that is no section and no continuation is passed over. */
  lemma NoSign(p: Parser, l: string, c: char, rest: string)
    requires White(l) && !Space(c) && c != '[' && (l == [] || p.prev == [])
    requires forall i :: 0 <= i < |[c] + rest| ==> ([c] + rest)[i] != '=' && ([c] + rest)[i] != ':'
    ensures ParsedLine(p, l + [c] + rest) == p
  {
    Trimmed(l, c, rest, p.prev != []);
    var s := [c] + RStrip(rest);
    RStripShape(rest);
    assert forall i :: 0 <= i < |s| ==> s[i] == ([c] + rest)[i];
  }

  function Joined(lines: seq<string>): string { if lines == [] then "" else lines[0] + Joined(lines[1..]) }

  lemma {:induction false} ChunkMeans(text: string, room: nat)
    requires room > 0 && text != []
    ensures
      var n := Chunk(text, room);
      && 0 < n <= room && (forall i :: 0 <= i < n - 1 ==> text[i] != '\n')
      && (n < room && n < |text| ==> text[n - 1] == '\n')
    decreases room
  {
    if text[0] != '\n' && room > 1 && |text| > 1 { ChunkMeans(text[1..], room - 1); }
  }

  /** The reader gets the whole text, in pieces that fit into the buffer: each ends with the line, or fills the
      buffer, or is the last one. */
  lemma {:induction false} ReadWhole(text: string)
    ensures Joined(ReadLines(text)) == text
    ensures forall k :: 0 <= k < |ReadLines(text)| ==> IsPiece(ReadLines(text)[k], k == |ReadLines(text)| - 1)
    decreases |text|
  {
    if text != [] {
      var n := Chunk(text, MAX_LINE - 1);
      ChunkMeans(text, MAX_LINE - 1);
      ReadWhole(text[n..]);
      assert text == text[..n] + text[n..];
      var first, rest := text[..n], ReadLines(text[n..]);
      assert rest == [] ==> text[n..] == [];
      forall k | 0 <= k < |ReadLines(text)| ensures IsPiece(ReadLines(text)[k], k == |ReadLines(text)| - 1) {
        if k > 0 { assert ReadLines(text)[k] == rest[k - 1]; } else { assert ReadLines(text)[k] == first; }
      }
    }
  }

  ghost predicate IsPiece(c: string, last: bool) {
    && 0 < |c| < 200 && (forall i :: 0 <= i < |c| - 1 ==> c[i] != '\n')
    && (last || c[|c| - 1] == '\n' || |c| == 199)
  }

  /** The settings of one section are printed under one header, in their order, those without a value left out. */
  lemma {:induction false} OneHeader(cfg: seq<Setting>, sec: string)
    requires forall i :: 0 <= i < |cfg| ==> cfg[i].sec == sec
    ensures Printed(cfg, Some(sec)) == SettingLines(cfg)
    ensures Printed(cfg, None) == if SettingLines(cfg) == [] then [] else ["", "[" + sec + "]"] + SettingLines(cfg)
  {
    if cfg != [] { OneHeader(cfg[1..], sec); }
  }

  function SettingLines(cfg: seq<Setting>): seq<string> {
    if cfg == [] then []
    else (if cfg[0].value.Some? then [cfg[0].key + " = " + cfg[0].value.value] else []) + SettingLines(cfg[1..])
  }
}
