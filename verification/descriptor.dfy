/** What `DIS_publish` reads out of a descriptor `name[:length][,tag]*`:
    the name, the shared array length and the specifier table. */
module Descriptor {
  import opened Config
  import opened DispatchSpec
  import Frame

  /** A name holds neither of the characters that end it. */
  predicate PlainName(name: seq<char>) {
    forall i :: 0 <= i < |name| ==> name[i] != ',' && name[i] != ':'
  }

  /** The name of a descriptor ends at its first `,` or `:`. */
  lemma NameEndIs(name: seq<char>, rest: seq<char>)
    requires PlainName(name) && |rest| > 0 && (rest[0] == ',' || rest[0] == ':')
    ensures NameEnd(name + rest) == |name|
  {
    var s := name + rest;
    var k := NameEnd(s);
    assert s[|name|] == rest[0];
    assert forall j :: 0 <= j < |name| ==> s[j] == name[j];
  }

  /** The length field of `name:digits` followed by nothing or by the
      specifiers is exactly those digits. */
  lemma LengthFieldIs(name: seq<char>, d: seq<char>, rest: seq<char>)
    requires PlainName(name) && (rest == [] || rest[0] == ',')
    requires |d| > 0 && forall i :: 0 <= i < |d| ==> IsDigit(d[i])
    ensures var topic := name + ([':'] + (d + rest));
            HasLengthField(topic) && LengthField(topic) == d &&
            LengthFieldEnd(topic) == |name| + 1 + |d|
  {
    var topic := name + ([':'] + (d + rest));
    NameEndIs(name, [':'] + (d + rest));
    var start := |name| + 1;
    assert topic[start] == d[0];
    assert LengthFieldStart(topic) == start;
    assert topic[start..start + |d|] == d;
    assert forall j :: start <= j < start + |d| ==> topic[j] == d[j - start];
    assert start + |d| < |topic| ==> topic[start + |d|] == rest[0];
    assert LengthFieldEnd(topic) == start + |d|;
  }

  /** A field written `name:N` followed by nothing or by the specifiers
      gives `N` modulo 256, raised to 1 when that is 0. */
  lemma DescriptorLength(name: seq<char>, n: nat, rest: seq<char>)
    requires PlainName(name) && (rest == [] || rest[0] == ',')
    ensures var topic := name + ([':'] + (Decimal(n) + rest));
            HasLengthField(topic) &&
            PublishLength(topic) == if n % 256 == 0 then 1 else n % 256
  {
    LengthFieldIs(name, Decimal(n), rest);
    AtolOfDecimal(n, []);
    assert Decimal(n) + [] == Decimal(n);
  }

  /** Commas are counted piece by piece. */
  lemma {:induction false} CommaCountAppend(a: seq<char>, b: seq<char>)
    ensures CommaCount(a + b) == CommaCount(a) + CommaCount(b)
    decreases |b|
  {
    if b != [] {
      var b' := b[..|b| - 1];
      CommaCountAppend(a, b');
      assert (a + b)[..|a + b| - 1] == a + b';
    } else {
      assert a + b == a;
    }
  }

  /** A run without commas counts none. */
  lemma {:induction false} NoCommas(s: seq<char>)
    requires forall i :: 0 <= i < |s| ==> s[i] != ','
    ensures CommaCount(s) == 0
    decreases |s|
  {
    if s != [] {
      NoCommas(s[..|s| - 1]);
    }
  }

  /** `st` moves three characters on, one past the end of the item, so a
      comma right after it is passed over: the specifiers after a string
      are lost, and the comma count still sets how many are sent. */
  lemma StringSkipsNextComma()
    ensures var topic := "a,st,u8";
            CommaCount(topic) == 2 && PublishTags(topic)[..2] == [STRING, NONE]
  {
    var topic := "a,st,u8";
    assert topic == "a" + ([','] + ("st" + ([','] + "u8")));
    NoCommas("a");
    NoCommas("st");
    NoCommas("u8");
    CommaCountAppend([','], "u8");
    CommaCountAppend("st", [','] + "u8");
    CommaCountAppend([','], "st" + ([','] + "u8"));
    CommaCountAppend("a", [','] + ("st" + ([','] + "u8")));
    NameEndIs("a", ",st,u8");
    assert !HasLengthField(topic);
    assert TagsStart(topic) == 1;
    assert SkipSpaces(topic, 2) == 2;
    assert ParseTag(topic, 2) == (STRING, 5);
    assert ParseTags(topic, 5, 1) == [];
    assert ParseTags(topic, 1, 0) == [STRING];
  }
  // ---------------------------------------------------------------------
  // The specifier items
  // ---------------------------------------------------------------------

  /** A token naming an array type: `u8`, `s8`, `u16`, `s16`, `u32` or
      `s32`. */
  predicate IsArrayToken(tok: seq<char>) {
    IsNumeric(TokenTag(tok))
  }

  function Spaces(k: nat): (r: seq<char>)
    ensures |r| == k && forall i :: 0 <= i < k ==> r[i] == ' '
  {
    seq(k, _ => ' ')
  }

  /** One item `, tok`, its comma followed by `b` spaces. */
  function Item(b: nat, tok: seq<char>): seq<char> {
    [','] + (Spaces(b) + tok)
  }

  /** The items of a descriptor, in order, the comma of item `k` followed
      by `blanks[k]` spaces. */
  function Items(blanks: seq<nat>, toks: seq<seq<char>>): seq<char>
    requires |blanks| == |toks|
  {
    if toks == [] then [] else Item(blanks[0], toks[0]) + Items(blanks[1..], toks[1..])
  }

  /** The specifiers the tokens name, in order. */
  function TokenTags(toks: seq<seq<char>>): (r: seq<Tag>)
    ensures |r| == |toks|
  {
    if toks == [] then [] else [TokenTag(toks[0])] + TokenTags(toks[1..])
  }

  /** Each specifier is the one its token names. */
  lemma {:induction false} TokenTagsAt(toks: seq<seq<char>>)
    ensures forall k :: 0 <= k < |toks| ==> TokenTags(toks)[k] == TokenTag(toks[k])
  {
    if toks != [] {
      TokenTagsAt(toks[1..]);
      assert forall k :: 1 <= k < |toks| ==> TokenTags(toks)[k] == TokenTags(toks[1..])[k - 1];
    }
  }

  lemma ArrayTokenShape(tok: seq<char>)
    requires IsArrayToken(tok)
    ensures |tok| == 2 || |tok| == 3
    ensures tok[0] != ' ' && tok != "st"
    ensures forall i :: 0 <= i < |tok| ==> tok[i] != ','
  {
  }

  /** The two parts of a slice that holds a concatenation. */
  lemma SliceSplit(s: seq<char>, i: nat, a: seq<char>, b: seq<char>)
    requires i + |a + b| <= |s| && s[i..i + |a + b|] == a + b
    ensures s[i..i + |a|] == a && s[i + |a|..i + |a| + |b|] == b
  {
    assert s[i..i + |a|] == s[i..i + |a + b|][..|a|];
    assert s[i + |a|..i + |a| + |b|] == s[i..i + |a + b|][|a|..];
  }

  /** The space loop stops at the first character that is not a space. */
  lemma SkipSpacesRun(s: seq<char>, from: nat, b: nat)
    requires from + b < |s| && s[from + b] != ' '
    requires forall p :: from <= p < from + b ==> s[p] == ' '
    ensures SkipSpaces(s, from) == from + b
  {
    assert forall p :: from <= p < from + b ==> At(s, p) == ' ';
    assert At(s, from + b) != ' ';
  }

  /** An item whose token holds no comma holds exactly one, its first
      character. */
  lemma ItemCommas(b: nat, tok: seq<char>)
    requires forall i :: 0 <= i < |tok| ==> tok[i] != ','
    ensures CommaCount(Item(b, tok)) == 1
  {
    var body := Spaces(b) + tok;
    assert forall i :: 0 <= i < |body| ==> body[i] != ',' by {
      forall i | 0 <= i < |body| ensures body[i] != ',' {
        if i >= b {
          assert body[i] == tok[i - b];
        }
      }
    }
    NoCommas(body);
    CommaCountAppend([','], body);
    assert [','][..0] == [];
  }

  /** A run of items holds one comma per item. */
  lemma {:induction false} ItemsCommas(blanks: seq<nat>, toks: seq<seq<char>>)
    requires |blanks| == |toks| && forall k :: 0 <= k < |toks| ==> IsArrayToken(toks[k])
    ensures CommaCount(Items(blanks, toks)) == |toks|
    decreases |toks|
  {
    if toks != [] {
      ItemsCommas(blanks[1..], toks[1..]);
      ArrayTokenShape(toks[0]);
      ItemCommas(blanks[0], toks[0]);
      CommaCountAppend(Item(blanks[0], toks[0]), Items(blanks[1..], toks[1..]));
    }
  }

  /** The specifier loop reads one array-token item found at `i` as the
      specifier its token names and goes on at `e`, just after the
      item. */
  lemma ParseItem(s: seq<char>, i: nat, n: nat, b: nat, tok: seq<char>, e: nat)
    requires n < MAX_NUM_OF_FORMAT_SPECIFIERS && IsArrayToken(tok)
    requires e == i + |Item(b, tok)| <= |s| && s[i..e] == Item(b, tok)
    ensures ParseTags(s, i, n) == [TokenTag(tok)] + ParseTags(s, e, n + 1)
  {
    ArrayTokenShape(tok);
    var it := Item(b, tok);
    ItemShape(b, tok);
    var j := i + 1 + b;
    forall p | i <= p < e ensures s[p] == it[p - i] {
      assert s[i..e][p - i] == s[p];
    }
    assert s[i] == ',';
    SkipSpacesRun(s, i + 1, b);
    assert s[j..e] == it[1 + b..];
    ParseToken(s, j, tok);
    ParseStep(s, i, n, j, TokenTag(tok), e);
  }

  /** One round of the specifier loop at a comma. */
  lemma ParseStep(s: seq<char>, i: nat, n: nat, j: nat, t: Tag, e: nat)
    requires i < |s| && s[i] == ',' && n < MAX_NUM_OF_FORMAT_SPECIFIERS
    requires SkipSpaces(s, i + 1) == j && ParseTag(s, j) == (t, e)
    ensures ParseTags(s, i, n) == [t] + ParseTags(s, e, n + 1)
  {
  }

  /** An item is a comma, `b` spaces and its token. */
  lemma ItemShape(b: nat, tok: seq<char>)
    ensures |Item(b, tok)| == 1 + b + |tok| && Item(b, tok)[0] == ','
    ensures forall p :: 1 <= p < 1 + b ==> Item(b, tok)[p] == ' '
    ensures Item(b, tok)[1 + b..] == tok
  {
    var body := Spaces(b) + tok;
    assert Item(b, tok)[1..] == body;
    assert body[b..] == tok;
  }

  /** A run of array-token items lies in `s` from `i` to `end`, item by
      item. */
  predicate ItemsAt(s: seq<char>, i: nat, blanks: seq<nat>, toks: seq<seq<char>>, end: nat)
    requires |blanks| == |toks|
    decreases |toks|
  {
    if toks == [] then i == end
    else
      IsArrayToken(toks[0]) && i + |Item(blanks[0], toks[0])| <= |s| &&
      s[i..i + |Item(blanks[0], toks[0])|] == Item(blanks[0], toks[0]) &&
      ItemsAt(s, i + |Item(blanks[0], toks[0])|, blanks[1..], toks[1..], end)
  }

  /** A slice that holds a run of array-token items holds them item by
      item. */
  lemma {:induction false} ItemsAtSlice(s: seq<char>, i: nat, blanks: seq<nat>, toks: seq<seq<char>>, end: nat)
    requires |blanks| == |toks| && forall k :: 0 <= k < |toks| ==> IsArrayToken(toks[k])
    requires end == i + |Items(blanks, toks)| <= |s| && s[i..end] == Items(blanks, toks)
    ensures ItemsAt(s, i, blanks, toks, end)
    decreases |toks|
  {
    if toks != [] {
      var mid := i + |Item(blanks[0], toks[0])|;
      SliceSplit(s, i, Item(blanks[0], toks[0]), Items(blanks[1..], toks[1..]));
      assert forall k :: 0 <= k < |toks[1..]| ==> toks[1..][k] == toks[k + 1];
      ItemsAtSlice(s, mid, blanks[1..], toks[1..], end);
    }
  }

  /** The specifier loop reads a run of array-token items found at `i`
      as the specifiers the tokens name, in order, and goes on at `end`,
      just after them, with `m` specifiers read, whatever spaces follow
      the commas. */
  lemma ParseItems(s: seq<char>, i: nat, n: nat, blanks: seq<nat>, toks: seq<seq<char>>,
                   end: nat, m: nat)
    requires |blanks| == |toks| && m == n + |toks| <= MAX_NUM_OF_FORMAT_SPECIFIERS
    requires forall k :: 0 <= k < |toks| ==> IsArrayToken(toks[k])
    requires end == i + |Items(blanks, toks)| <= |s| && s[i..end] == Items(blanks, toks)
    ensures ParseTags(s, i, n) == TokenTags(toks) + ParseTags(s, end, m)
  {
    ItemsAtSlice(s, i, blanks, toks, end);
    ParseRun(s, i, n, blanks, toks, end, m);
  }

  /** ParseItems, item by item. */
  lemma {:induction false} ParseRun(s: seq<char>, i: nat, n: nat, blanks: seq<nat>, toks: seq<seq<char>>,
                                    end: nat, m: nat)
    requires |blanks| == |toks| && m == n + |toks| <= MAX_NUM_OF_FORMAT_SPECIFIERS
    requires ItemsAt(s, i, blanks, toks, end)
    ensures ParseTags(s, i, n) == TokenTags(toks) + ParseTags(s, end, m)
    decreases |toks|, 1
  {
    if toks == [] {
      assert TokenTags(toks) == [];
    } else {
      var mid := RunHead(s, i, n, blanks, toks, end);
      ParseRunCons(s, i, n, blanks, toks, mid, end, m);
    }
  }

  /** ParseRun once the first item of the run has been read. */
  lemma {:induction false} ParseRunCons(s: seq<char>, i: nat, n: nat, blanks: seq<nat>, toks: seq<seq<char>>,
                                        mid: nat, end: nat, m: nat)
    requires |blanks| == |toks| > 0 && m == n + |toks| <= MAX_NUM_OF_FORMAT_SPECIFIERS
    requires ParseTags(s, i, n) == [TokenTag(toks[0])] + ParseTags(s, mid, n + 1)
    requires ItemsAt(s, mid, blanks[1..], toks[1..], end)
    ensures ParseTags(s, i, n) == TokenTags(toks) + ParseTags(s, end, m)
    decreases |toks|, 0
  {
    ParseRun(s, mid, n + 1, blanks[1..], toks[1..], end, m);
    GlueTags(toks, ParseTags(s, i, n), ParseTags(s, mid, n + 1), ParseTags(s, end, m));
  }

  /** The first item of a run found at `i` is read, and the rest of the
      run starts at `mid`, just after it. */
  lemma RunHead(s: seq<char>, i: nat, n: nat, blanks: seq<nat>, toks: seq<seq<char>>, end: nat)
      returns (mid: nat)
    requires |blanks| == |toks| > 0 && n < MAX_NUM_OF_FORMAT_SPECIFIERS && ItemsAt(s, i, blanks, toks, end)
    ensures ParseTags(s, i, n) == [TokenTag(toks[0])] + ParseTags(s, mid, n + 1)
    ensures ItemsAt(s, mid, blanks[1..], toks[1..], end)
  {
    mid := i + |Item(blanks[0], toks[0])|;
    ParseItem(s, i, n, blanks[0], toks[0], mid);
  }

  /** Regrouping the specifiers read: the first token's, then the rest of
      the run's, then what follows the run. */
  lemma GlueTags(toks: seq<seq<char>>, all: seq<Tag>, later: seq<Tag>, after: seq<Tag>)
    requires |toks| > 0 && all == [TokenTag(toks[0])] + later && later == TokenTags(toks[1..]) + after
    ensures all == TokenTags(toks) + after
  {
    TokenTagsCons(toks);
    Glue(all, later, TokenTag(toks[0]), TokenTags(toks[1..]), TokenTags(toks), after);
  }

  lemma TokenTagsCons(toks: seq<seq<char>>)
    requires |toks| > 0
    ensures TokenTags(toks) == [TokenTag(toks[0])] + TokenTags(toks[1..])
  {
  }

  /** Regrouping the specifiers read: the first, then the rest of the run,
      then what follows the run. */
  lemma Glue(all: seq<Tag>, later: seq<Tag>, t: Tag, run: seq<Tag>, tags: seq<Tag>, after: seq<Tag>)
    requires all == [t] + later && later == run + after && tags == [t] + run
    ensures all == tags + after
  {
    Frame.Assoc([t], run, after);
  }

  /** A descriptor `name:N, t1, t2, …` with array tokens: the comma count
      is the number of items, the specifier table holds the tokens'
      specifiers in order and `eNONE` after them, and the length is `N`
      modulo 256, raised to 1 when that is 0. */
  lemma DescriptorTags(name: seq<char>, n: nat, blanks: seq<nat>, toks: seq<seq<char>>)
    requires PlainName(name) && |blanks| == |toks| <= MAX_NUM_OF_FORMAT_SPECIFIERS
    requires forall k :: 0 <= k < |toks| ==> IsArrayToken(toks[k])
    ensures var topic := name + ([':'] + (Decimal(n) + Items(blanks, toks)));
            CommaCount(topic) == |toks| && PublishTags(topic) == Pad(TokenTags(toks)) &&
            PublishLength(topic) == if n % 256 == 0 then 1 else n % 256
  {
    var items := Items(blanks, toks);
    assert items == [] || items[0] == ',';
    DescriptorLength(name, n, items);
    SizedTable(name, n, blanks, toks);
    ItemsCommas(blanks, toks);
    FieldCommas(name, Decimal(n), items);
  }

  /** The specifier table of `name:N, t1, t2, …`. */
  lemma SizedTable(name: seq<char>, n: nat, blanks: seq<nat>, toks: seq<seq<char>>)
    requires PlainName(name) && |blanks| == |toks| <= MAX_NUM_OF_FORMAT_SPECIFIERS
    requires forall k :: 0 <= k < |toks| ==> IsArrayToken(toks[k])
    ensures PublishTags(name + ([':'] + (Decimal(n) + Items(blanks, toks)))) == Pad(TokenTags(toks))
  {
    var items := Items(blanks, toks);
    var topic := name + ([':'] + (Decimal(n) + items));
    assert items == [] || items[0] == ',';
    LengthFieldIs(name, Decimal(n), items);
    var start := |name| + 1 + |Decimal(n)|;
    assert topic[start..|topic|] == items;
    ParseItems(topic, start, 0, blanks, toks, |topic|, |toks|);
    RunToEnd(topic, start, 0, TokenTags(toks), |toks|);
    Table(topic, start, TokenTags(toks));
  }

  /** The specifier table is what the loop reads from where the
      specifiers start. */
  lemma Table(topic: seq<char>, start: nat, tags: seq<Tag>)
    requires TagsStart(topic) == start && ParseTags(topic, start, 0) == tags
    ensures PublishTags(topic) == Pad(tags)
  {
  }

  /** A loop that reads `tags` and then reaches the end of the descriptor
      reads nothing more. */
  lemma RunToEnd(s: seq<char>, i: nat, n: nat, tags: seq<Tag>, m: nat)
    requires n <= MAX_NUM_OF_FORMAT_SPECIFIERS && m <= MAX_NUM_OF_FORMAT_SPECIFIERS
    requires ParseTags(s, i, n) == tags + ParseTags(s, |s|, m)
    ensures ParseTags(s, i, n) == tags
  {
    assert tags + [] == tags;
  }

  /** A name and a length field without commas add none to the items'. */
  lemma FieldCommas(name: seq<char>, d: seq<char>, items: seq<char>)
    requires PlainName(name) && forall i :: 0 <= i < |d| ==> IsDigit(d[i])
    ensures CommaCount(name + ([':'] + (d + items))) == CommaCount(items)
  {
    NoCommas(name);
    NoCommas(d);
    CommaCountAppend(d, items);
    CommaCountAppend([':'], d + items);
    CommaCountAppend(name, [':'] + (d + items));
    assert [':'][..0] == [];
  }

  /** A descriptor `name, t1, t2, …` with array tokens and no length
      field: the same specifiers, and a length of 1. */
  lemma UnsizedDescriptorTags(name: seq<char>, blanks: seq<nat>, toks: seq<seq<char>>)
    requires PlainName(name) && |blanks| == |toks| <= MAX_NUM_OF_FORMAT_SPECIFIERS
    requires forall k :: 0 <= k < |toks| ==> IsArrayToken(toks[k])
    ensures var topic := name + Items(blanks, toks);
            CommaCount(topic) == |toks| && PublishTags(topic) == Pad(TokenTags(toks)) &&
            PublishLength(topic) == 1
  {
    var items := Items(blanks, toks);
    UnsizedTable(name, blanks, toks);
    ItemsCommas(blanks, toks);
    NoCommas(name);
    CommaCountAppend(name, items);
  }

  /** The specifier table and the length of `name, t1, t2, …`. */
  lemma UnsizedTable(name: seq<char>, blanks: seq<nat>, toks: seq<seq<char>>)
    requires PlainName(name) && |blanks| == |toks| <= MAX_NUM_OF_FORMAT_SPECIFIERS
    requires forall k :: 0 <= k < |toks| ==> IsArrayToken(toks[k])
    ensures var topic := name + Items(blanks, toks);
            PublishTags(topic) == Pad(TokenTags(toks)) && PublishLength(topic) == 1
  {
    var items := Items(blanks, toks);
    var topic := name + items;
    if items == [] {
      assert topic == name;
    } else {
      NameEndIs(name, items);
    }
    assert NameEnd(topic) == |name| && !HasLengthField(topic);
    assert topic[|name|..|topic|] == items;
    ParseItems(topic, |name|, 0, blanks, toks, |topic|, |toks|);
    RunToEnd(topic, |name|, 0, TokenTags(toks), |toks|);
    Table(topic, |name|, TokenTags(toks));
  }

  /** Wherever a `st` item stands, it records a string specifier and the
      loop goes on three characters later, one past the item: a comma
      right after `st` is passed over, and the loop stops there unless a
      second comma follows at once. */
  lemma StringItem(s: seq<char>, k: nat, n: nat)
    requires n < MAX_NUM_OF_FORMAT_SPECIFIERS && k < |s| && s[k] == ','
    requires var j := SkipSpaces(s, k + 1); j + 2 <= |s| && s[j..j + 2] == "st"
    ensures var j := SkipSpaces(s, k + 1);
            ParseTags(s, k, n) == [STRING] + ParseTags(s, j + 3, n + 1) &&
            (j + 3 >= |s| || s[j + 3] != ',' ==> ParseTags(s, k, n) == [STRING])
  {
    ParseToken(s, SkipSpaces(s, k + 1), "st");
  }

  /** A `st` item at `k` followed by anything whose second character is
      not a comma ends the specifiers. */
  lemma StringItemEnds(s: seq<char>, k: nat, n: nat, b: nat, rest: seq<char>)
    requires n < MAX_NUM_OF_FORMAT_SPECIFIERS && (|rest| < 2 || rest[1] != ',')
    requires k + |Item(b, "st")| + |rest| == |s| && s[k..] == Item(b, "st") + rest
    ensures ParseTags(s, k, n) == [STRING]
  {
    var it := Item(b, "st");
    ItemShape(b, "st");
    var j := k + 1 + b;
    forall p | k <= p < k + |it| ensures s[p] == it[p - k] {
      assert s[k..][p - k] == s[p];
    }
    assert s[k] == ',';
    SkipSpacesRun(s, k + 1, b);
    assert s[j..j + 2] == it[1 + b..];
    assert j + 3 < |s| ==> s[j + 3] == s[k..][|it| + 1] == rest[1];
    StringItem(s, k, n);
  }

  /** A descriptor `name, t1, …, tk, st` followed by anything whose
      second character is not a comma, such as `,u8`: the specifiers are
      those of the tokens, then a string, then `eNONE`; every item after
      the string is lost, though its comma is still counted. */
  lemma StringEndsTags(name: seq<char>, blanks: seq<nat>, toks: seq<seq<char>>, b: nat, rest: seq<char>)
    requires PlainName(name) && |blanks| == |toks| < MAX_NUM_OF_FORMAT_SPECIFIERS
    requires forall k :: 0 <= k < |toks| ==> IsArrayToken(toks[k])
    requires |rest| < 2 || rest[1] != ','
    ensures var topic := name + (Items(blanks, toks) + (Item(b, "st") + rest));
            CommaCount(topic) == |toks| + 1 + CommaCount(rest) &&
            PublishTags(topic) == Pad(TokenTags(toks) + [STRING])
  {
    StringTable(name, blanks, toks, b, rest);
    StringCommas(name, blanks, toks, b, rest);
  }

  /** The comma count of `name, t1, …, tk, st` and what follows. */
  lemma StringCommas(name: seq<char>, blanks: seq<nat>, toks: seq<seq<char>>, b: nat, rest: seq<char>)
    requires PlainName(name) && |blanks| == |toks|
    requires forall k :: 0 <= k < |toks| ==> IsArrayToken(toks[k])
    ensures CommaCount(name + (Items(blanks, toks) + (Item(b, "st") + rest))) == |toks| + 1 + CommaCount(rest)
  {
    var items := Items(blanks, toks);
    var last := Item(b, "st") + rest;
    ItemsCommas(blanks, toks);
    ItemCommas(b, "st");
    NoCommas(name);
    CommaCountAppend(Item(b, "st"), rest);
    CommaCountAppend(items, last);
    CommaCountAppend(name, items + last);
  }

  /** The specifier table of `name, t1, …, tk, st` and what follows. */
  lemma StringTable(name: seq<char>, blanks: seq<nat>, toks: seq<seq<char>>, b: nat, rest: seq<char>)
    requires PlainName(name) && |blanks| == |toks| < MAX_NUM_OF_FORMAT_SPECIFIERS
    requires forall k :: 0 <= k < |toks| ==> IsArrayToken(toks[k])
    requires |rest| < 2 || rest[1] != ','
    ensures PublishTags(name + (Items(blanks, toks) + (Item(b, "st") + rest))) == Pad(TokenTags(toks) + [STRING])
  {
    var items := Items(blanks, toks);
    var last := Item(b, "st") + rest;
    var topic := name + (items + last);
    NameEndIs(name, items + last);
    assert !HasLengthField(topic);
    var start := |name| + |items|;
    assert topic[|name|..start] == items && topic[start..] == last;
    ParseItems(topic, |name|, 0, blanks, toks, start, |toks|);
    StringItemEnds(topic, start, |toks|, b, rest);
    Table(topic, |name|, TokenTags(toks) + [STRING]);
  }
}
