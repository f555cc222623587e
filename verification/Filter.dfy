/** What a filter argument means, item by item: the names in it and the ways of writing them down. */
module Filter {
  import opened Matcher

  /** A name without any of the characters that mean something in a filter. */
  predicate Plain(s: string) {
    && s != ""
    && forall i :: 0 <= i < |s| ==>
                     && s[i] != '*' && s[i] != ',' && s[i] != '"' && s[i] != '\'' && s[i] != ':' && s[i] != 0 as char
  }

  /** A name to look for in the file or the test name, or one for each of them; a star may follow. A star alone is anything. */
  datatype Item =
    | Name(name: string, star: bool)
    | Both(file: string, test: string, star: bool)
    | Anything
  {
    predicate WellFormed() {
      match this
      case Name(name, _) => Plain(name)
      case Both(file, test, _) => Plain(file) && Plain(test)
      case Anything => true
    }

    function Text(): string {
      match this
      case Name(name, star) => name + if star then "*" else ""
      case Both(file, test, star) => file + ":" + test + if star then "*" else ""
      case Anything => "*"
    }

    /** What the item asks of the file and of the test. */
    ghost predicate Selects(inFile: string, inTest: string) {
      match this
      case Name(name, _) => Occurs(inFile, name) || Occurs(inTest, name)
      case Both(file, test, _) => Occurs(inFile, file) && Occurs(inTest, test)
      case Anything => true
    }
  }

  /** An item and what stands between it and the next: a comma or a quote, and more of them or colons. */
  datatype Entry = Entry(item: Item, separator: string)

  predicate IsSeparator(s: string) {
    && s != "" && s[0] != ':'
    && forall i :: 0 <= i < |s| ==> s[i] == ',' || s[i] == '"' || s[i] == '\'' || s[i] == ':'
  }

  /** A list of items; only after the last one the separator may be missing. */
  predicate IsList(entries: seq<Entry>) {
    forall i :: 0 <= i < |entries| ==>
                  && entries[i].item.WellFormed()
                  && (IsSeparator(entries[i].separator) || (entries[i].separator == "" && i == |entries| - 1))
  }

  function ListText(entries: seq<Entry>): string {
    if entries == [] then "" else entries[0].item.Text() + (entries[0].separator + ListText(entries[1..]))
  }

  ghost predicate AnySelects(entries: seq<Entry>, file: string, test: string) {
    exists i :: 0 <= i < |entries| && entries[i].item.Selects(file, test)
  }

  // ----- one pattern -----

  /** The matcher's answer for a name that is followed by nothing, or by a character that ends it. */
  lemma PatternAnswer(long: string, s: string, name: string, after: string)
    requires Plain(name) && s == name + after
    requires after != "" ==>
               after[0] == '*' || after[0] == ',' || after[0] == '"' || after[0] == '\'' || after[0] == ':'
    ensures forall r: int :: Answers(long, s, r)
                             <==> r == if !Occurs(long, name) then 0 else if after != "" && after[0] == ':' then 2 else 1
  {
    var k := |name|;
    assert forall i: nat :: i < k ==> At(s, i) == name[i];
    assert PatternLength(s, k) && s[..k] == name;
    forall j: nat | PatternLength(s, j) ensures j == k {
      PatternLengthUnique(s, j, k);
    }
  }

  // ----- one item -----

  /** `str` has the item at `p`, and then it ends, or a comma or a quote follows. */
  ghost predicate ItemAt(str: string, p: nat, item: Item, after: string) {
    && p <= |str| && item.WellFormed() && str[p..] == item.Text() + after
    && (after != "" ==> after[0] == ',' || after[0] == '"' || after[0] == '\'')
  }

  lemma CharAt(str: string, p: nat, t: string, after: string, i: nat)
    requires p <= |str| && str[p..] == t + after && i < |t| + |after|
    ensures p + i < |str| && str[p + i] == if i < |t| then t[i] else after[i - |t|]
  {
    assert str[p..][i] == (t + after)[i];
  }

  lemma TextChars(item: Item)
    requires item.WellFormed()
    ensures item.Text() != "" && !Separates(item.Text()[0])
    ensures forall i :: 0 <= i < |item.Text()| ==> !EndsToken(item.Text()[i])
  {
  }

  lemma ItemEnd(str: string, p: nat, item: Item, after: string)
    requires ItemAt(str, p, item, after)
    ensures TokenEnd(str, p, p + |item.Text()|) && !Separates(str[p])
  {
    var t := item.Text();
    TextChars(item);
    CharAt(str, p, t, after, 0);
    forall i: nat | p < i < p + |t| ensures !EndsToken(str[i]) {
      CharAt(str, p, t, after, i - p);
    }
    if after != "" {
      CharAt(str, p, t, after, |t|);
    }
  }

  lemma NameMeaning(file: string, test: string, str: string, p: nat, item: Item, after: string)
    requires ItemAt(str, p, item, after) && item.Name?
    ensures TokenMatches(file, test, str, p) <==> item.Selects(file, test)
  {
    var rest := (if item.star then "*" else "") + after;
    assert str[p..] == item.name + rest;
    PatternAnswer(file, str[p..], item.name, rest);
    PatternAnswer(test, str[p..], item.name, rest);
  }

  /** The colon between the two names is the last one of the token. */
  lemma ColonBetween(str: string, p: nat, item: Item, after: string)
    requires ItemAt(str, p, item, after) && item.Both?
    ensures LastColon(str, p, p + |item.Text()|, p + |item.file|)
  {
    var t, q := item.Text(), p + |item.file|;
    CharAt(str, p, t, after, |item.file|);
    CharAt(str, p, t, after, |item.file| + 1);
    forall i: nat | q < i <= p + |t| && i + 1 < |str| ensures str[i] != ':' {
      CharAt(str, p, t, after, i - p);
    }
  }

  lemma LastColonUnique(str: string, p: nat, e: nat, q: nat, q': nat)
    requires LastColon(str, p, e, q) && LastColon(str, p, e, q')
    ensures q == q'
  {
  }

  lemma BothText(item: Item, after: string)
    requires item.Both?
    ensures item.Text() + after == item.file + (":" + (item.test + ((if item.star then "*" else "") + after)))
  {
  }

  lemma AfterColon(str: string, p: nat, item: Item, after: string)
    requires ItemAt(str, p, item, after) && item.Both?
    ensures p + |item.file| < |str|
    ensures str[p + |item.file| + 1..] == item.test + ((if item.star then "*" else "") + after)
  {
    BothText(item, after);
    assert str[p + |item.file| + 1..] == str[p..][|item.file| + 1..];
  }

  /** What follows that colon is matched against the test name. */
  lemma RestMeaning(test: string, str: string, p: nat, item: Item, after: string)
    requires ItemAt(str, p, item, after) && item.Both?
    ensures (exists e: nat, q: nat :: RestMatches(test, str, p, e, q)) <==> Occurs(test, item.test)
  {
    var e, q := p + |item.Text()|, p + |item.file|;
    ItemEnd(str, p, item, after);
    ColonBetween(str, p, item, after);
    AfterColon(str, p, item, after);
    PatternAnswer(test, str[q + 1..], item.test, (if item.star then "*" else "") + after);
    forall e': nat, q': nat | RestMatches(test, str, p, e', q') ensures e' == e && q' == q {
      TokenEndUnique(str, p, e, e');
      LastColonUnique(str, p, e, q, q');
    }
    assert Occurs(test, item.test) ==> RestMatches(test, str, p, e, q);
  }

  lemma BothMeaning(file: string, test: string, str: string, p: nat, item: Item, after: string)
    requires ItemAt(str, p, item, after) && item.Both?
    ensures TokenMatches(file, test, str, p) <==> item.Selects(file, test)
  {
    var rest := ":" + (item.test + ((if item.star then "*" else "") + after));
    BothText(item, after);
    PatternAnswer(file, str[p..], item.file, rest);
    PatternAnswer(test, str[p..], item.file, rest);
    RestMeaning(test, str, p, item, after);
  }

  lemma ItemMeaning(file: string, test: string, str: string, p: nat, item: Item, after: string)
    requires ItemAt(str, p, item, after)
    ensures TokenMatches(file, test, str, p) <==> item.Selects(file, test)
  {
    match item {
      case Name(_, _) => NameMeaning(file, test, str, p, item, after);
      case Both(_, _, _) => BothMeaning(file, test, str, p, item, after);
      case Anything =>
        assert str[p..][0] == '*';
        assert Answers(file, str[p..], 1);
    }
  }

  // ----- the list -----

  /** Some token that starts at `p` or later matches. */
  ghost predicate MatchesFrom(file: string, test: string, str: string, p: nat) {
    exists q: nat :: p <= q && IsStart(str, q) && TokenMatches(file, test, str, q)
  }

  /** Between an item and what follows its separator no token starts. */
  lemma NoStartInside(str: string, p: nat, item: Item, separator: string, rest: string)
    requires ItemAt(str, p, item, separator + rest) && First(str) <= p
    requires forall i :: 0 <= i < |separator| ==> Separates(separator[i])
    ensures var e := p + |item.Text()|;
            && e + |separator| <= |str| && str[e + |separator|..] == rest
            && (forall i: nat :: e <= i < e + |separator| ==> str[i] == separator[i - e] && Separates(str[i]))
            && (forall q: nat :: p < q < e + |separator| ==> !IsStart(str, q))
  {
    var t := item.Text();
    var e := p + |t|;
    var next := e + |separator|;
    TextChars(item);
    ItemEnd(str, p, item, separator + rest);
    assert str[next..] == str[p..][|t| + |separator|..];
    forall i: nat | e <= i < next ensures str[i] == separator[i - e] && Separates(str[i]) {
      CharAt(str, p, t, separator + rest, i - p);
    }
    forall q: nat | p < q < next ensures !IsStart(str, q) {
      NoStartBetween(str, p, e, next, q);
    }
  }

  lemma FirstItem(entries: seq<Entry>)
    requires IsList(entries) && entries != []
    ensures ListText(entries) != "" && !Separates(ListText(entries)[0])
  {
    TextChars(entries[0].item);
  }

  /** After the first item and its separator the rest of the list follows, at the start of a token. */
  lemma NextStart(str: string, p: nat, entries: seq<Entry>) returns (next: nat)
    requires p <= |str| && str[p..] == ListText(entries) && IsList(entries) && entries != []
    requires First(str) <= p
    ensures p < next <= |str| && str[next..] == ListText(entries[1..])
    ensures ItemAt(str, p, entries[0].item, entries[0].separator + ListText(entries[1..]))
    ensures entries[1..] != [] ==> IsStart(str, next)
    ensures forall q: nat :: p < q < next ==> !IsStart(str, q)
  {
    var item, separator, rest := entries[0].item, entries[0].separator, ListText(entries[1..]);
    var e := p + |item.Text()|;
    next := e + |separator|;
    TextChars(item);
    assert entries[1..] == [] ==> rest == "";
    NoStartInside(str, p, item, separator, rest);
    if entries[1..] != [] {
      FirstItem(entries[1..]);
      assert str[next] == str[next..][0];
      assert EndsBefore(str, e, next);
    }
  }

  lemma MatchesNext(file: string, test: string, str: string, p: nat, next: nat)
    requires p < next && IsStart(str, p) && forall q: nat :: p < q < next ==> !IsStart(str, q)
    ensures MatchesFrom(file, test, str, p) <==> TokenMatches(file, test, str, p) || MatchesFrom(file, test, str, next)
  {
  }

  lemma SelectsNext(file: string, test: string, entries: seq<Entry>)
    requires entries != []
    ensures AnySelects(entries, file, test)
            <==> entries[0].item.Selects(file, test) || AnySelects(entries[1..], file, test)
  {
    if i :| 0 <= i < |entries| && entries[i].item.Selects(file, test) {
      assert i > 0 ==> entries[i] == entries[1..][i - 1];
    }
    if AnySelects(entries[1..], file, test) {
      var i :| 0 <= i < |entries[1..]| && entries[1..][i].item.Selects(file, test);
      assert entries[i + 1] == entries[1..][i];
    }
  }

  lemma {:induction false} ListMeaning(file: string, test: string, str: string, p: nat, entries: seq<Entry>)
    requires p <= |str| && str[p..] == ListText(entries) && IsList(entries)
    requires First(str) <= p && (entries != [] ==> IsStart(str, p))
    ensures MatchesFrom(file, test, str, p) <==> AnySelects(entries, file, test)
    decreases |entries|
  {
    if entries != [] {
      var next := NextStart(str, p, entries);
      ItemMeaning(file, test, str, p, entries[0].item, entries[0].separator + ListText(entries[1..]));
      ListMeaning(file, test, str, next, entries[1..]);
      MatchesNext(file, test, str, p, next);
      SelectsNext(file, test, entries);
    }
  }

  /**
   A filter argument selects a test exactly when one of its items does, however the items are
   separated, quoted or starred.
   */
  lemma FilterMeaning(file: string, test: string, quote: string, entries: seq<Entry>)
    requires (quote == "" || quote == "\"" || quote == "'") && entries != [] && IsList(entries)
    ensures Selected(file, test, quote + ListText(entries)) <==> AnySelects(entries, file, test)
  {
    var str := quote + ListText(entries);
    var item := entries[0].item;
    TextChars(item);
    assert ListText(entries)[0] == item.Text()[0];
    assert First(str) == |quote|;
    assert str[|quote|..] == ListText(entries);
    assert IsStart(str, |quote|);
    ListMeaning(file, test, str, |quote|, entries);
    assert Selected(file, test, str) <==> MatchesFrom(file, test, str, |quote|);
  }

  lemma OneItem(file: string, test: string, quote: string, item: Item, quote': string)
    requires (quote == "" || quote == "\"" || quote == "'") && item.WellFormed()
    requires quote' == "" || quote' == "\"" || quote' == "'"
    ensures Selected(file, test, quote + item.Text() + quote') <==> item.Selects(file, test)
  {
    var entries := [Entry(item, quote')];
    FilterMeaning(file, test, quote, entries);
    assert entries[1..] == [];
    assert quote + ListText(entries) == quote + item.Text() + quote';
    SelectsNext(file, test, entries);
  }

  /** A name, quoted or with a star or both, selects the tests with that name in the file or the test name. */
  lemma OneName(file: string, test: string, a: string, quote: string)
    requires Plain(a) && (quote == "" || quote == "\"" || quote == "'")
    ensures Selected(file, test, quote + a + quote) <==> Occurs(file, a) || Occurs(test, a)
    ensures Selected(file, test, quote + (a + "*") + quote) <==> Occurs(file, a) || Occurs(test, a)
  {
    assert Name(a, false).Text() == a;
    OneItem(file, test, quote, Name(a, false), quote);
    OneItem(file, test, quote, Name(a, true), quote);
  }

  /** A name in the file and a name in the test. */
  lemma FileAndTest(file: string, test: string, f: string, t: string)
    requires Plain(f) && Plain(t)
    ensures Selected(file, test, f + ":" + t) <==> Occurs(file, f) && Occurs(test, t)
  {
    assert "" + Both(f, t, false).Text() + "" == f + ":" + t;
    OneItem(file, test, "", Both(f, t, false), "");
  }

  /** Either of two names. */
  lemma EitherName(file: string, test: string, a: string, b: string)
    requires Plain(a) && Plain(b)
    ensures Selected(file, test, a + "," + b) <==> Occurs(file, a) || Occurs(test, a) || Occurs(file, b) || Occurs(test, b)
  {
    var entries := [Entry(Name(a, false), ","), Entry(Name(b, false), "")];
    assert entries[1..] == [Entry(Name(b, false), "")] && entries[1..][1..] == [];
    assert ListText(entries[1..]) == b;
    assert "" + ListText(entries) == a + "," + b;
    FilterMeaning(file, test, "", entries);
    SelectsNext(file, test, entries);
    SelectsNext(file, test, entries[1..]);
  }
}
