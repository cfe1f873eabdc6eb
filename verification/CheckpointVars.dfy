/** The checkpoint variables: a table in memory, mirrored to a file of `name="value"` lines. */
module CheckpointVars {
  import opened Wrappers

  datatype Var = Var(name: string, value: string)

  const MAXLINELEN := 512

  // ----- The table -----

  /** Names are told apart. */
  ghost predicate Distinct(t: seq<Var>) {
    forall i, j :: 0 <= i < j < |t| ==> t[i].name != t[j].name
  }

  /** The position of a variable in the table, or the table's length. */
  function Find(t: seq<Var>, n: string): (i: nat)
    ensures i <= |t| && (i < |t| ==> t[i].name == n)
    ensures forall k :: 0 <= k < i ==> t[k].name != n
  {
    if t == [] || t[0].name == n then 0 else 1 + Find(t[1..], n)
  }

  /** Replaces the value of a known variable and adds an unknown one at the end. */
  function Insert(t: seq<Var>, x: Var): seq<Var> {
    var i := Find(t, x.name);
    if i < |t| then t[i := x] else t + [x]
  }

  lemma InsertKeepsDistinct(t: seq<Var>, x: Var)
    requires Distinct(t)
    ensures Distinct(Insert(t, x)) && x in Insert(t, x)
  {
    var i := Find(t, x.name);
    if i < |t| {
      assert Insert(t, x)[i] == x;
    } else {
      assert Insert(t, x)[|t|] == x;
    }
  }

  /** The value of a variable, if the table has it. */
  function Lookup(t: seq<Var>, n: string): Option<string> {
    if t == [] then None else if t[0].name == n then Some(t[0].value) else Lookup(t[1..], n)
  }

  function Names(t: seq<Var>): seq<string> {
    seq(|t|, i requires 0 <= i < |t| => t[i].name)
  }

  lemma {:induction false} LookupExactly(t: seq<Var>, n: string)
    ensures Lookup(t, n) == if Find(t, n) < |t| then Some(t[Find(t, n)].value) else None
  {
    if t != [] && t[0].name != n {
      LookupExactly(t[1..], n);
    }
  }

  lemma FindUnique(t: seq<Var>, n: string, i: nat)
    requires i <= |t| && (i < |t| ==> t[i].name == n) && forall k :: 0 <= k < i ==> t[k].name != n
    ensures Find(t, n) == i
  {}

  lemma InsertLookup(t: seq<Var>, x: Var, n: string)
    ensures Lookup(Insert(t, x), n) == if n == x.name then Some(x.value) else Lookup(t, n)
  {
    var i, t' := Find(t, x.name), Insert(t, x);
    if n == x.name {
      FindUnique(t', n, i);
    } else if Find(t, n) < |t| || i < |t| {
      FindUnique(t', n, Find(t, n));
    } else {
      FindUnique(t', n, |t'|);
    }
    LookupExactly(t, n);
    LookupExactly(t', n);
  }

  lemma InsertNames(t: seq<Var>, x: Var)
    ensures Names(Insert(t, x)) == if x.name in Names(t) then Names(t) else Names(t) + [x.name]
    ensures forall k :: 0 <= k < |t| && t[k].name != x.name ==> Insert(t, x)[k] == t[k]
  {
    var i := Find(t, x.name);
    assert i < |t| ==> Names(t)[i] == x.name;
  }

  /** Writing one variable: it has its new value, every other variable is as before, and so is the order; there is one
      entry more, at the end, exactly if the name is new. */
  lemma InsertExactly(t: seq<Var>, x: Var, n: string)
    ensures Lookup(Insert(t, x), n) == if n == x.name then Some(x.value) else Lookup(t, n)
    ensures Names(Insert(t, x)) == if x.name in Names(t) then Names(t) else Names(t) + [x.name]
    ensures forall k :: 0 <= k < |t| && t[k].name != x.name ==> Insert(t, x)[k] == t[k]
  {
    InsertLookup(t, x, n);
    InsertNames(t, x);
  }

  // ----- The file -----

  /** Where `c` first occurs. */
  function IndexOf(s: string, c: char): (r: Option<nat>)
    ensures r.Some? ==> r.value < |s| && s[r.value] == c && c !in s[..r.value]
    ensures r.None? ==> c !in s
  {
    if s == [] then None
    else if s[0] == c then Some(0)
    else
      match IndexOf(s[1..], c)
      case None => None
      case Some(k) =>
        assert s[..k + 1] == [s[0]] + s[1..][..k];
        Some(k + 1)
  }

  predicate IsAlpha(c: char) {
    'a' <= c <= 'z' || 'A' <= c <= 'Z'
  }

  /** How much one `fgets` takes: to the end of the line, if that fits the buffer. */
  function FgetsLen(s: string): (k: nat)
    requires s != []
    ensures 1 <= k <= |s|
  {
    var cap := if |s| < MAXLINELEN - 1 then |s| else MAXLINELEN - 1;
    match IndexOf(s, '\n')
    case None => cap
    case Some(i) => if i + 1 < cap then i + 1 else cap
  }

  /** A line read back. */
  function ParseLine(l: string): Option<Var> {
    if l == [] || !IsAlpha(l[0]) then None
    else
      match IndexOf(l, '=')
      case None => None
      case Some(i) =>
        if i + 1 == |l| || l[i + 1] != '"' then None
        else
          match IndexOf(l[i + 2..], '"')
          case None => None
          case Some(j) => Some(Var(l[..i], l[i + 2..][..j]))
  }

  /** Reading a whole file into a table; None if some line does not parse. */
  function Fill(file: string, t: seq<Var>): Option<seq<Var>>
    decreases |file|
  {
    if file == [] then Some(t)
    else
      var k := FgetsLen(file);
      match ParseLine(file[..k])
      case None => None
      case Some(x) => Fill(file[k..], Insert(t, x))
  }

  function Line(x: Var): string {
    x.name + "=\"" + x.value + "\"\n"
  }

  function Print(t: seq<Var>): string {
    if t == [] then [] else Print(t[..|t| - 1]) + Line(t[|t| - 1])
  }

  // ----- What survives -----

  predicate GoodName(n: string) {
    n != [] && ('a' <= n[0] <= 'z' || 'A' <= n[0] <= 'Z') && '=' !in n && '\n' !in n
  }

  predicate GoodValue(v: string) {
    '"' !in v && '\n' !in v
  }

  /** Readable but for its length. */
  predicate Readable(x: Var) {
    GoodName(x.name) && GoodValue(x.value)
  }

  /** A variable whose line can be read back: letter first, no `=` in the name, no quote in the value, no line
      break, and short enough. */
  predicate Good(x: Var) {
    GoodName(x.name) && GoodValue(x.value) && |x.name| + |x.value| <= 507
  }

  /** A good variable is readable and its line fits the buffer; and that makes it good. */
  lemma GoodExactly(x: Var)
    ensures Good(x) <==> Readable(x) && |Line(x)| <= MAXLINELEN - 1
  {}

  lemma IndexOfUnique(s: string, c: char, k: nat)
    requires k < |s| && s[k] == c && c !in s[..k]
    ensures IndexOf(s, c) == Some(k)
  {
    var r := IndexOf(s, c);
    assert forall i :: 0 <= i < k ==> s[..k][i] == s[i];
    assert s[k] in s;
    assert forall i :: 0 <= i < r.value ==> s[..r.value][i] == s[i];
  }

  predicate Begins(l: string, x: Var) {
    && x.name != [] && ('a' <= x.name[0] <= 'z' || 'A' <= x.name[0] <= 'Z') && '=' !in x.name && '"' !in x.value
    && x.name + "=\"" + x.value + "\"" <= l
  }

  /** A line yields a variable exactly if it begins with it: a letter first, the name up to the first `=`, the value
      between quotes. What follows does not matter. */
  lemma ParseLineExactly(l: string, x: Var)
    ensures ParseLine(l) == Some(x) <==> Begins(l, x)
  {
    if ParseLine(l) == Some(x) {
      ParsedBegins(l, x);
    }
    if Begins(l, x) {
      BegunParses(l, x);
    }
  }

  lemma ParsedBegins(l: string, x: Var)
    requires ParseLine(l) == Some(x)
    ensures Begins(l, x)
  {
    var i := IndexOf(l, '=').value;
    var rest := l[i + 2..];
    var j := IndexOf(rest, '"').value;
    var a := x.name + "=\"" + x.value + "\"";
    assert rest[j] == l[i + 2 + j] == '"';
    forall k | 0 <= k < |a|
      ensures a[k] == l[k]
    {
      assert i + 2 <= k < i + 2 + j ==> rest[k - i - 2] == l[k];
    }
  }

  lemma BegunParses(l: string, x: Var)
    requires Begins(l, x)
    ensures ParseLine(l) == Some(x)
  {
    var a, i, v := x.name + "=\"" + x.value + "\"", |x.name|, |x.value|;
    assert forall k :: 0 <= k < |a| ==> l[k] == a[k];
    assert l[..i] == x.name && l[i] == '=' && l[i + 1] == '"' && l[0] == x.name[0];
    IndexOfUnique(l, '=', i);
    var rest := l[i + 2..];
    assert rest[..v] == x.value && rest[v] == '"';
    IndexOfUnique(rest, '"', v);
  }

  /** A good name and a value without quotes are read back as they were written. */
  lemma ParseLineOfLine(x: Var)
    requires GoodName(x.name) && '"' !in x.value
    ensures ParseLine(Line(x)) == Some(x)
  {
    assert Line(x) == x.name + "=\"" + x.value + "\"" + "\n";
    BegunParses(Line(x), x);
  }

  /** The file consists of complete lines that fit the buffer. */
  predicate Fits(file: string)
    decreases |file|
  {
    file == [] ||
    match IndexOf(file, '\n')
    case None => false
    case Some(i) => i + 1 <= MAXLINELEN - 1 && Fits(file[i + 1..])
  }

  lemma {:induction false} FillAppend(a: string, b: string, t: seq<Var>)
    requires Fits(a)
    ensures Fill(a + b, t) == match Fill(a, t) case None => None case Some(t') => Fill(b, t')
    ensures Fits(b) ==> Fits(a + b)
    decreases |a|
  {
    if a == [] {
      assert a + b == b;
    } else {
      var i := IndexOf(a, '\n').value;
      assert (a + b)[..i] == a[..i] && (a + b)[i] == '\n';
      IndexOfUnique(a + b, '\n', i);
      var k := i + 1;
      assert FgetsLen(a) == k && FgetsLen(a + b) == k;
      assert (a + b)[..k] == a[..k] && (a + b)[k..] == a[k..] + b;
      match ParseLine(a[..k])
      case None => FillAppend(a[k..], b, t);
      case Some(x) => FillAppend(a[k..], b, Insert(t, x));
    }
  }

  lemma LineBreak(x: Var)
    requires '\n' !in x.name && '\n' !in x.value
    ensures IndexOf(Line(x), '\n') == Some(|Line(x)| - 1)
  {
    var l, n := Line(x), |Line(x)| - 1;
    assert l[..n] == x.name + "=\"" + x.value + "\"";
    IndexOfUnique(l, '\n', n);
  }

  /** One good line is read as one variable. */
  lemma FillLine(x: Var, t: seq<Var>)
    requires Good(x)
    ensures Fits(Line(x)) && Fill(Line(x), t) == Some(Insert(t, x))
  {
    LineBreak(x);
    var l := Line(x);
    assert FgetsLen(l) == |l| && l[..|l|] == l && l[|l|..] == [];
    ParseLineOfLine(x);
  }

  /** What a line can yield, however it came about: `l` has no line break except perhaps at its end. */
  lemma ParsedReadable(l: string)
    requires ParseLine(l).Some? && '\n' !in l[..|l| - 1]
    ensures var x := ParseLine(l).value;
            Readable(x) && (l[|l| - 1] == '\n' ==> |Line(x)| <= |l|)
  {
    var i := IndexOf(l, '=').value;
    var rest := l[i + 2..];
    var j := IndexOf(rest, '"').value;
    var x, front := ParseLine(l).value, l[..|l| - 1];
    assert forall k :: 0 <= k < |x.name| ==> x.name[k] == l[k];
    assert forall k :: 0 <= k < j ==> x.value[k] == l[i + 2 + k];
    assert l[i + 2 + j] == '"';
    assert forall k :: 0 <= k < |front| ==> front[k] == l[k];
  }

  lemma ChunkBreaks(file: string)
    requires file != []
    ensures var c := file[..FgetsLen(file)]; '\n' !in c[..|c| - 1]
  {
    var c := file[..FgetsLen(file)];
    match IndexOf(file, '\n')
    case None =>
    case Some(i) => assert c[..|c| - 1] <= file[..i];
  }

  /** Everything a file adds to a table is readable. */
  lemma {:induction false} FillReadable(file: string, t: seq<Var>, x: Var)
    requires Fill(file, t).Some? && x in Fill(file, t).value
    ensures x in t || Readable(x)
    decreases |file|
  {
    if file != [] {
      var k := FgetsLen(file);
      ChunkBreaks(file);
      ParsedReadable(file[..k]);
      var y := ParseLine(file[..k]).value;
      FillReadable(file[k..], Insert(t, y), x);
      InsertAdds(t, y, x);
    }
  }

  lemma InsertAdds(t: seq<Var>, y: Var, x: Var)
    ensures x in Insert(t, y) ==> x in t || x == y
  {
    var i := Find(t, y.name);
    if i < |t| && x in t[i := y] {
      var k :| 0 <= k < |t| && t[i := y][k] == x;
      assert k != i ==> t[k] == x;
    }
  }

  ghost predicate AllGood(t: seq<Var>) {
    forall k :: 0 <= k < |t| ==> Good(t[k])
  }

  lemma InsertKeepsGood(t: seq<Var>, x: Var)
    requires AllGood(t) && Good(x)
    ensures AllGood(Insert(t, x))
  {}

  lemma FitsStep(file: string)
    requires Fits(file) && file != []
    ensures var k := FgetsLen(file);
            k <= MAXLINELEN - 1 && file[..k][k - 1] == '\n' && Fits(file[k..])
  {}

  lemma FirstLineGood(file: string)
    requires Fits(file) && file != [] && ParseLine(file[..FgetsLen(file)]).Some?
    ensures Good(ParseLine(file[..FgetsLen(file)]).value)
  {
    FitsStep(file);
    ChunkBreaks(file);
    ParsedReadable(file[..FgetsLen(file)]);
  }

  /** A table read from complete lines that fit has distinct names and good variables only. */
  lemma {:induction false} FillGood(file: string, t: seq<Var>)
    requires Fits(file) && Fill(file, t).Some? && AllGood(t) && Distinct(t)
    ensures AllGood(Fill(file, t).value) && Distinct(Fill(file, t).value)
    decreases |file|
  {
    if file != [] {
      var k := FgetsLen(file);
      var x := ParseLine(file[..k]).value;
      FirstLineGood(file);
      FitsStep(file);
      InsertKeepsGood(t, x);
      InsertKeepsDistinct(t, x);
      FillGood(file[k..], Insert(t, x));
    }
  }

  // ----- Writing the whole table -----

  lemma {:induction false} PrintAppend(a: seq<Var>, b: seq<Var>)
    ensures Print(a + b) == Print(a) + Print(b)
    decreases |b|
  {
    if b == [] {
      assert a + b == a;
    } else {
      var b', x := b[..|b| - 1], b[|b| - 1];
      assert (a + b)[..|a + b| - 1] == a + b' && (a + b)[|a + b| - 1] == x;
      PrintAppend(a, b');
      assert Print(a) + (Print(b') + Line(x)) == Print(a) + Print(b') + Line(x);
    }
  }

  lemma PrintOne(x: Var)
    ensures Print([x]) == Line(x)
  {
    assert [x][..0] == [];
    assert Print([]) + Line(x) == Line(x);
  }

  lemma PrintAround(a: seq<Var>, x: Var, b: seq<Var>)
    ensures Print(a + [x] + b) == Print(a) + (Line(x) + Print(b))
  {
    PrintAppend(a + [x], b);
    PrintAppend(a, [x]);
    PrintOne(x);
    assert Print(a) + Line(x) + Print(b) == Print(a) + (Line(x) + Print(b));
  }

  lemma InsertNew(t: seq<Var>)
    requires t != [] && Distinct(t)
    ensures Insert(t[..|t| - 1], t[|t| - 1]) == t
  {
    var front, x := t[..|t| - 1], t[|t| - 1];
    assert forall k :: 0 <= k < |front| ==> front[k].name != x.name;
    assert front + [x] == t;
  }

  /** A table of good variables with distinct names is read back from what is printed of it. */
  lemma {:induction false} FillPrint(t: seq<Var>)
    requires AllGood(t) && Distinct(t)
    ensures Fits(Print(t)) && Fill(Print(t), []) == Some(t)
    decreases |t|
  {
    if t != [] {
      var front, x := t[..|t| - 1], t[|t| - 1];
      FillPrint(front);
      FillLine(x, front);
      FillAppend(Print(front), Line(x), []);
      InsertNew(t);
    }
  }

  // ----- Lines that are too long -----

  lemma IndexOfAbsent(s: string, c: char)
    requires c !in s
    ensures IndexOf(s, c) == None
  {}

  /** A line cut off before its closing quote does not parse. */
  lemma CutLineFails(x: Var, c: nat)
    requires Readable(x) && c < |Line(x)| - 1
    ensures ParseLine(Line(x)[..c]) == None
  {
    var l, n := Line(x)[..c], |x.name|;
    assert forall k :: 0 <= k < |l| ==> l[k] == Line(x)[k];
    if c <= n {
      assert l == x.name[..c];
      IndexOfAbsent(l, '=');
    } else {
      assert l[..n] == x.name;
      IndexOfUnique(l, '=', n);
      if c > n + 1 {
        assert l[n + 2..] == x.value[..c - n - 2];
        IndexOfAbsent(l[n + 2..], '"');
      }
    }
  }

  /** A readable variable whose line does not fit makes the file unreadable from there on. */
  lemma LongLineFails(x: Var, rest: string, t: seq<Var>)
    requires Readable(x) && |Line(x)| > MAXLINELEN - 1
    ensures Fill(Line(x) + rest, t) == None
  {
    var file, c := Line(x) + rest, MAXLINELEN - 1;
    LineBreak(x);
    assert file[..|Line(x)| - 1] == Line(x)[..|Line(x)| - 1];
    IndexOfUnique(file, '\n', |Line(x)| - 1);
    assert FgetsLen(file) == c && file[..c] == Line(x)[..c];
    if c < |Line(x)| - 1 {
      CutLineFails(x, c);
    } else {
      var left := file[c..];
      assert left[0] == '\n';
      assert !IsAlpha(left[..FgetsLen(left)][0]);
      match ParseLine(file[..c])
      case None =>
      case Some(y) => assert Fill(left, Insert(t, y)) == None;
    }
  }

  // ----- The mirror -----

  /** The file is made of lines that fit, and reads back as the table. */
  ghost predicate Mirrors(file: string, t: seq<Var>) {
    Fits(file) && Fill(file, []) == Some(t)
  }

  /** The file after variable `x` has been written. */
  function WriteFile(file: string, t: seq<Var>, x: Var): string {
    var i := Find(t, x.name);
    if i == |t| then file + Line(x)
    else if t[i] == x then file
    else Print(t[i := x])
  }

  lemma GoodWriteMirrors(file: string, t: seq<Var>, x: Var)
    requires Mirrors(file, t) && Good(x)
    ensures Mirrors(WriteFile(file, t, x), Insert(t, x))
  {
    var i := Find(t, x.name);
    FillGood(file, []);
    if i == |t| {
      FillLine(x, t);
      FillAppend(file, Line(x), []);
    } else if t[i] == x {
      assert t[i := x] == t;
    } else {
      InsertKeepsGood(t, x);
      InsertKeepsDistinct(t, x);
      FillPrint(t[i := x]);
    }
  }

  /** Appending the line of a readable variable works only if it fits. */
  lemma AppendNeedsGood(file: string, t: seq<Var>, x: Var)
    requires Mirrors(file, t) && Readable(x) && Fill(file + Line(x), []).Some?
    ensures Good(x)
  {
    FillAppend(file, Line(x), []);
    assert Line(x) + [] == Line(x);
    if |Line(x)| > MAXLINELEN - 1 {
      LongLineFails(x, [], t);
    }
  }

  /** And so does rewriting the file with it. */
  lemma RewriteNeedsGood(a: seq<Var>, x: Var, b: seq<Var>)
    requires AllGood(a) && Distinct(a) && Readable(x) && Fill(Print(a + [x] + b), []).Some?
    ensures Good(x)
  {
    if |Line(x)| > MAXLINELEN - 1 {
      PrintAround(a, x, b);
      FillPrint(a);
      FillAppend(Print(a), Line(x) + Print(b), []);
      LongLineFails(x, Print(b), a);
    }
  }

  lemma MirroredIsGood(file: string, t: seq<Var>)
    requires Mirrors(file, t)
    ensures AllGood(t) && Distinct(t)
  {
    FillGood(file, []);
  }

  lemma EntryNeedsGood(t: seq<Var>, i: nat, x: Var)
    requires AllGood(t) && Distinct(t) && i < |t| && Readable(x) && Fill(Print(t[i := x]), []).Some?
    ensures Good(x)
  {
    Around(t, i, x);
    RewriteNeedsGood(t[..i], x, t[i + 1..]);
  }

  lemma Around(t: seq<Var>, i: nat, x: Var)
    requires AllGood(t) && Distinct(t) && i < |t|
    ensures t[i := x] == t[..i] + [x] + t[i + 1..] && AllGood(t[..i]) && Distinct(t[..i])
  {}

  lemma WrittenIsReadable(file: string, t: seq<Var>, x: Var)
    requires Distinct(t) && Fill(WriteFile(file, t, x), []) == Some(Insert(t, x))
    ensures Readable(x)
  {
    InsertKeepsDistinct(t, x);
    FillReadable(WriteFile(file, t, x), [], x);
  }

  /** If the file reads back as the table after a write, the variable written was good. */
  lemma MirrorNeedsGood(file: string, t: seq<Var>, x: Var)
    requires Mirrors(file, t) && Fill(WriteFile(file, t, x), []) == Some(Insert(t, x))
    ensures Good(x)
  {
    var i := Find(t, x.name);
    MirroredIsGood(file, t);
    WrittenIsReadable(file, t, x);
    if i == |t| {
      AppendNeedsGood(file, t, x);
    } else if t[i] != x {
      EntryNeedsGood(t, i, x);
    }
  }

  /** From a mirrored state, a write leaves a file that reads back as the table exactly if the variable is good, on
      the append, the rewrite and the no-change path alike. */
  lemma WriteMirrorsExactly(file: string, t: seq<Var>, x: Var)
    requires Mirrors(file, t)
    ensures Fill(WriteFile(file, t, x), []) == Some(Insert(t, x)) <==> Good(x)
  {
    if Good(x) {
      GoodWriteMirrors(file, t, x);
    }
    if Fill(WriteFile(file, t, x), []) == Some(Insert(t, x)) {
      MirrorNeedsGood(file, t, x);
    }
  }

  /** A value with a quote in it is written, and does not come back. */
  lemma QuoteDoesNotComeBack()
    ensures var x := Var("a", "\"");
            && Mirrors("", []) && !Good(x) && Fill(WriteFile("", [], x), []) != Some(Insert([], x))
  {
    var x := Var("a", "\"");
    assert x.value[0] == '"';
    WriteMirrorsExactly("", [], x);
  }

  // ----- As it runs -----

  class VarTable {
    var table: seq<Var>
    var file: string
    /** Whether the name of the file is known. A failed read forgets it. */
    var named: bool

    constructor (file: string)
      ensures this.file == file && table == [] && named
    {
      this.file, table, named := file, [], true;
    }

    /** 0 for a new variable, 1 for a changed value, 2 for no change. */
    method InsertVarToTable(x: Var) returns (code: int)
      modifies this`table
      ensures table == Insert(old(table), x)
      ensures code == var i := Find(old(table), x.name);
                      if i == |old(table)| then 0 else if old(table)[i] != x then 1 else 2
    {
      var i := 0;
      while i < |table| && table[i].name != x.name
        invariant 0 <= i <= |table| && forall k :: 0 <= k < i ==> table[k].name != x.name
      {
        i := i + 1;
      }
      assert i == Find(table, x.name);
      if i == |table| {
        table := table + [x];
        return 0;
      }
      if table[i].value == x.value {
        assert table[i := x] == table;
        return 2;
      }
      table := table[i := x];
      code := 1;
    }

    method AddNewVarToFile(x: Var) returns (ok: bool)
      modifies this`file
      ensures ok == named && file == if named then old(file) + Line(x) else old(file)
    {
      ok := named;
      if named {
        file := file + Line(x);
      }
    }

    /** Writes the table to a new file, which then replaces the old one. */
    method UpdateVarToFile() returns (ok: bool)
      modifies this`file
      ensures ok == named && file == if named then Print(table) else old(file)
    {
      if !named {
        return false;
      }
      var tmp := [];
      for i := 0 to |table|
        invariant tmp == Print(table[..i]) && file == old(file)
      {
        assert table[..i + 1][..i] == table[..i];
        tmp := tmp + Line(table[i]);
      }
      assert table[..|table|] == table;
      file := tmp;
      ok := true;
    }

    /** Writes a variable to the table, and to the file if its name is known. Without a name the table goes on alone,
        and the write fails unless the table has the variable already. */
    method WriteEchkpntVar(x: Var) returns (ok: bool)
      modifies this`table, this`file
      ensures table == Insert(old(table), x)
      ensures file == if named then WriteFile(old(file), old(table), x) else old(file)
      ensures ok <==> named || (var i := Find(old(table), x.name); i < |old(table)| && old(table)[i] == x)
      ensures named && old(Mirrors(file, table)) && Good(x) ==> Mirrors(file, table)
      ensures forall n :: Lookup(table, n) == if n == x.name then Some(x.value) else Lookup(old(table), n)
    {
      forall n
        ensures Lookup(Insert(table, x), n) == if n == x.name then Some(x.value) else Lookup(table, n)
      {
        InsertExactly(table, x, n);
      }
      if Mirrors(file, table) && Good(x) {
        GoodWriteMirrors(file, table, x);
      }
      var code := InsertVarToTable(x);
      if code == 0 {
        ok := AddNewVarToFile(x);
      } else if code == 1 {
        ok := UpdateVarToFile();
      } else {
        ok := true;
      }
    }

    /** The value of a variable. */
    method GetEchkpntVar(n: string) returns (value: Option<string>)
      ensures value == Lookup(table, n)
    {
      for i := 0 to |table|
        invariant Lookup(table[i..], n) == Lookup(table, n)
      {
        assert table[i..][1..] == table[i + 1..];
        if table[i].name == n {
          return Some(table[i].value);
        }
      }
      value := None;
    }

    /** Reads the file; on a line that does not parse the table is dropped and the name of the file forgotten. */
    method FillTable() returns (ok: bool)
      modifies this`table, this`named
      ensures ok <==> old(named) && Fill(file, old(table)).Some?
      ensures named == ok
      ensures table == if ok then Fill(file, old(table)).value else if old(named) then [] else old(table)
    {
      if !named {
        return false;
      }
      var rest := file;
      while rest != []
        invariant named && Fill(rest, table) == Fill(file, old(table))
        decreases |rest|
      {
        var k := FgetsLen(rest);
        var x := ParseLine(rest[..k]);
        if x == None {
          table, named := [], false;
          return false;
        }
        var _ := InsertVarToTable(x.value);
        rest := rest[k..];
      }
      ok := true;
    }
  }

  /** The state after a sequence of writes. */
  ghost function WriteAll(file: string, t: seq<Var>, xs: seq<Var>): (string, seq<Var>) {
    if xs == [] then (file, t)
    else
      var (f, u) := WriteAll(file, t, xs[..|xs| - 1]);
      (WriteFile(f, u, xs[|xs| - 1]), Insert(u, xs[|xs| - 1]))
  }

  /** Across any sequence of good writes the file reads back as exactly the table. */
  lemma {:induction false} WritesMirror(file: string, t: seq<Var>, xs: seq<Var>)
    requires Mirrors(file, t) && AllGood(xs)
    ensures Mirrors(WriteAll(file, t, xs).0, WriteAll(file, t, xs).1)
    decreases |xs|
  {
    if xs != [] {
      WritesMirror(file, t, xs[..|xs| - 1]);
      var (f, u) := WriteAll(file, t, xs[..|xs| - 1]);
      GoodWriteMirrors(f, u, xs[|xs| - 1]);
    }
  }

  /** Position `k` is the last write of a variable. */
  predicate LastWrite(xs: seq<Var>, k: nat, n: string) {
    k < |xs| && xs[k].name == n && forall m :: k < m < |xs| ==> xs[m].name != n
  }

  predicate Written(xs: seq<Var>, n: string) {
    exists k :: 0 <= k < |xs| && xs[k].name == n
  }

  lemma WriteAllSnoc(file: string, t: seq<Var>, xs: seq<Var>)
    requires xs != []
    ensures WriteAll(file, t, xs).1 == Insert(WriteAll(file, t, xs[..|xs| - 1]).1, xs[|xs| - 1])
  {}

  /** The table after any writes, good or not: a variable has the value last written. */
  lemma {:induction false} WrittenLast(file: string, t: seq<Var>, xs: seq<Var>, k: nat)
    requires k < |xs| && LastWrite(xs, k, xs[k].name)
    ensures Lookup(WriteAll(file, t, xs).1, xs[k].name) == Some(xs[k].value)
    decreases |xs|
  {
    var front, x := xs[..|xs| - 1], xs[|xs| - 1];
    WriteAllSnoc(file, t, xs);
    InsertLookup(WriteAll(file, t, front).1, x, xs[k].name);
    if k < |front| {
      assert x.name != xs[k].name;
      WrittenLast(file, t, front, k);
    }
  }

  /** One that was not written has its old value. */
  lemma {:induction false} UnwrittenStays(file: string, t: seq<Var>, xs: seq<Var>, n: string)
    requires !Written(xs, n)
    ensures Lookup(WriteAll(file, t, xs).1, n) == Lookup(t, n)
    decreases |xs|
  {
    if xs != [] {
      var front, x := xs[..|xs| - 1], xs[|xs| - 1];
      WriteAllSnoc(file, t, xs);
      InsertLookup(WriteAll(file, t, front).1, x, n);
      assert forall k :: 0 <= k < |front| ==> front[k] == xs[k];
      UnwrittenStays(file, t, front, n);
    }
  }

  lemma {:induction false} NamesStay(file: string, t: seq<Var>, xs: seq<Var>)
    ensures Names(t) <= Names(WriteAll(file, t, xs).1)
    decreases |xs|
  {
    if xs != [] {
      WriteAllSnoc(file, t, xs);
      InsertNames(WriteAll(file, t, xs[..|xs| - 1]).1, xs[|xs| - 1]);
      NamesStay(file, t, xs[..|xs| - 1]);
    }
  }

  lemma WritesLast(file: string, t: seq<Var>, xs: seq<Var>, n: string)
    ensures forall k: nat :: LastWrite(xs, k, n) ==> Lookup(WriteAll(file, t, xs).1, n) == Some(xs[k].value)
    ensures !Written(xs, n) ==> Lookup(WriteAll(file, t, xs).1, n) == Lookup(t, n)
  {
    forall k: nat | LastWrite(xs, k, n)
      ensures Lookup(WriteAll(file, t, xs).1, n) == Some(xs[k].value)
    {
      WrittenLast(file, t, xs, k);
    }
    if !Written(xs, n) {
      UnwrittenStays(file, t, xs, n);
    }
  }

  /** Reading lines is writing them to the table one by one, repeated names included. */
  lemma {:induction false} FillLines(xs: seq<Var>, t: seq<Var>)
    requires AllGood(xs)
    ensures Fits(Print(xs)) && Fill(Print(xs), t) == Some(WriteAll([], t, xs).1)
    decreases |xs|
  {
    if xs != [] {
      var front, x := xs[..|xs| - 1], xs[|xs| - 1];
      FillLines(front, t);
      FillLine(x, WriteAll([], t, front).1);
      FillAppend(Print(front), Line(x), t);
    }
  }

  /** So if a file has several lines for a variable, the last one counts. */
  lemma LastLineCounts(xs: seq<Var>, n: string)
    requires AllGood(xs)
    ensures var r := Fill(Print(xs), []);
            && r.Some? && (!Written(xs, n) ==> Lookup(r.value, n) == None)
            && forall k: nat :: LastWrite(xs, k, n) ==> Lookup(r.value, n) == Some(xs[k].value)
  {
    FillLines(xs, []);
    WritesLast([], [], xs, n);
  }

  /** Main result: after any sequence of good writes the file is readable, and what is read back has for each variable
      the value last written, or the one from before if it was not written, and no other variables; those from before
      come first, in their old order. */
  lemma FileRemembers(file: string, t: seq<Var>, xs: seq<Var>, n: string)
    requires Mirrors(file, t) && AllGood(xs)
    ensures var r := Fill(WriteAll(file, t, xs).0, []);
            && r.Some? && Distinct(r.value) && Names(t) <= Names(r.value)
            && (forall k: nat :: LastWrite(xs, k, n) ==> Lookup(r.value, n) == Some(xs[k].value))
            && (!Written(xs, n) ==> Lookup(r.value, n) == Lookup(t, n))
  {
    WritesMirror(file, t, xs);
    WritesLast(file, t, xs, n);
    NamesStay(file, t, xs);
    MirroredIsGood(WriteAll(file, t, xs).0, WriteAll(file, t, xs).1);
  }
}
