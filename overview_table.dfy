/** The searchable overview table of the stock and ETF pages: which rows a
    search term keeps, and how the `tags`, `links`, `text` and default cell
    renderers read the value of a cell.

    A cell value is a JSON-like value. Lower-casing is ASCII only, and the
    whitespace that `String.prototype.trim` removes is listed in
    `IsJsWhitespace`. `JSON.stringify`, used for object values, is a parameter
    of the search (`Threw` when it throws). */
module OverviewTable {
  import Seqs

  // ----- Values -----

  datatype Value =
    | Undefined
    | Null
    | Str(s: string)
    | Num(text: string)   // a number, carried with the text that `String(value)` gives
    | Bool(b: bool)
    | Arr(items: seq<Value>)
    | Obj(fields: map<string, Value>)

  /** A row of the table, keyed by column key. */
  type DataItem = map<string, Value>

  /** The part of a column definition the search reads; `searchable` is false when absent. */
  datatype Column = Column(key: string, header: string, searchable: bool)

  /** The outcome of `JSON.stringify(value)`. */
  datatype JsonResult = Json(text: string) | Threw

  /** `item[key]`: a missing key reads as `undefined`. */
  function Lookup(item: DataItem, key: string): Value
  {
    if key in item then item[key] else Undefined
  }

  predicate Nullish(v: Value) { v.Undefined? || v.Null? }

  // ----- Strings -----

  function LowerChar(c: char): char
  {
    if 'A' <= c <= 'Z' then (c as int + 32) as char else c
  }

  /** `toLowerCase`, on ASCII letters. */
  function Lower(s: string): (r: string)
    ensures |r| == |s|
    ensures forall i :: 0 <= i < |r| ==> !('A' <= r[i] <= 'Z')
    ensures forall i :: 0 <= i < |s| ==>
      if 'A' <= s[i] <= 'Z' then r[i] as int == s[i] as int + 32 else r[i] == s[i]
  {
    seq(|s|, i requires 0 <= i < |s| => LowerChar(s[i]))
  }

  /** The characters `trim` removes: JavaScript's white space and line terminators. */
  predicate IsJsWhitespace(c: char)
  {
    || c == ' ' || c == '\t' || c == '\n' || c == '\r' || c == '\U{B}' || c == '\U{C}'
    || c == '\U{A0}' || c == '\U{1680}' || ('\U{2000}' <= c <= '\U{200A}')
    || c == '\U{2028}' || c == '\U{2029}' || c == '\U{202F}' || c == '\U{205F}'
    || c == '\U{3000}' || c == '\U{FEFF}'
  }

  predicate AllWhitespace(s: string) { forall i :: 0 <= i < |s| ==> IsJsWhitespace(s[i]) }

  function TrimStart(s: string): (r: string)
    ensures |r| <= |s|
  {
    if s != [] && IsJsWhitespace(s[0]) then TrimStart(s[1..]) else s
  }

  function TrimEnd(s: string): (r: string)
    ensures |r| <= |s|
  {
    if s != [] && IsJsWhitespace(s[|s| - 1]) then TrimEnd(s[..|s| - 1]) else s
  }

  /** `s.trim()`: the text between leading and trailing white space. */
  function Trim(s: string): string
  {
    TrimEnd(TrimStart(s))
  }

  /** What `trim` leaves: a piece of the text, cut out between white space, that
      neither starts nor ends with white space. */
  lemma TrimShape(s: string)
    ensures var r := Trim(s);
      && (exists i :: 0 <= i <= |s| - |r| && r == s[i..i + |r|]
                   && AllWhitespace(s[..i]) && AllWhitespace(s[i + |r|..]))
      && (r != [] ==> !IsJsWhitespace(r[0]) && !IsJsWhitespace(r[|r| - 1]))
  {
    var t := TrimStart(s);
    TrimStartShape(s);
    TrimStartEmptyIff(s);
    TrimEndShape(t);
    var r := TrimEnd(t);
    var i := |s| - |t|;
    assert r == s[i..i + |r|] by {
      assert r == t[..|r|];
      assert t == s[i..];
    }
    assert AllWhitespace(s[i + |r|..]) by {
      assert s[i + |r|..] == t[|r|..];
    }
    assert 0 <= i <= |s| - |r| && AllWhitespace(s[..i]);
    if r != [] {
      assert r[0] == t[0];
    }
  }

  lemma {:induction false} TrimStartShape(s: string)
    ensures var r := TrimStart(s);
      r == s[|s| - |r|..] && AllWhitespace(s[..|s| - |r|])
  {
    if s != [] && IsJsWhitespace(s[0]) {
      TrimStartShape(s[1..]);
      var r := TrimStart(s);
      assert s[1..][|s| - 1 - |r|..] == s[|s| - |r|..];
      forall k | 0 <= k < |s| - |r| ensures IsJsWhitespace(s[k]) {
        if k > 0 { assert s[k] == s[1..][..|s| - 1 - |r|][k - 1]; }
      }
    }
  }

  lemma {:induction false} TrimEndShape(s: string)
    ensures var r := TrimEnd(s);
      && r == s[..|r|] && AllWhitespace(s[|r|..])
      && (r != [] ==> !IsJsWhitespace(r[|r| - 1]))
  {
    if s != [] && IsJsWhitespace(s[|s| - 1]) {
      var init := s[..|s| - 1];
      TrimEndShape(init);
      var r := TrimEnd(s);
      assert init[..|r|] == s[..|r|];
      forall k | |r| <= k < |s| ensures IsJsWhitespace(s[k]) {
        if k < |s| - 1 { assert s[k] == init[|r|..][k - |r|]; }
      }
    }
  }

  /** `!s.trim()`, `s.trim() === ''`. */
  predicate IsBlank(s: string) { Trim(s) == "" }

  /** `s.includes(t)`. */
  predicate Includes(s: string, t: string)
    ensures Includes(s, t) ==> |t| <= |s|
    ensures t <= s ==> Includes(s, t)
  {
    assert t <= s ==> t <= s[0..];
    exists i | 0 <= i <= |s| :: t <= s[i..]
  }

  function Join(parts: seq<string>, sep: string): string
  {
    if |parts| == 0 then ""
    else if |parts| == 1 then parts[0]
    else parts[0] + sep + Join(parts[1..], sep)
  }

  /** `String(value)`. Inside an array, `undefined` and `null` become empty text. */
  function ToJsString(v: Value): string
  {
    match v
    case Undefined => "undefined"
    case Null => "null"
    case Str(s) => s
    case Num(text) => text
    case Bool(b) => if b then "true" else "false"
    case Arr(xs) =>
      Join(seq(|xs|, i requires 0 <= i < |xs| => if Nullish(xs[i]) then "" else ToJsString(xs[i])), ",")
    case Obj(_) => "[object Object]"
  }

  // ----- The search -----

  /** Does one cell value match the (already lower-cased) term? */
  predicate ValueMatches(v: Value, term: string, stringify: Value -> JsonResult)
    ensures ValueMatches(v, term, stringify) ==> !Nullish(v)
  {
    match v
    case Undefined => false
    case Null => false
    case Str(s) => Includes(Lower(s), term)
    case Arr(xs) =>
      exists i | 0 <= i < |xs| :: !Nullish(xs[i]) && Includes(Lower(ToJsString(xs[i])), term)
    case Obj(_) =>
      (match stringify(v)
       case Json(text) => Includes(Lower(text), term)
       case Threw => false)
    case _ => Includes(Lower(ToJsString(v)), term)
  }

  /** Is the row kept for this search term? A blank term keeps every row; otherwise
      some searchable column's value must match the lower-cased, untrimmed term. */
  predicate RowMatches(item: DataItem, columns: seq<Column>, searchTerm: string,
                       stringify: Value -> JsonResult)
    ensures IsBlank(searchTerm) ==> RowMatches(item, columns, searchTerm, stringify)
    ensures !IsBlank(searchTerm) && RowMatches(item, columns, searchTerm, stringify) ==>
      exists j :: 0 <= j < |columns| && columns[j].searchable && !Nullish(Lookup(item, columns[j].key))
  {
    if IsBlank(searchTerm) then true
    else
      var term := Lower(searchTerm);
      exists j | 0 <= j < |columns| ::
        columns[j].searchable && ValueMatches(Lookup(item, columns[j].key), term, stringify)
  }

  /** The row test of `data.filter(...)`. */
  function KeepRow(columns: seq<Column>, searchTerm: string, stringify: Value -> JsonResult): DataItem -> bool
  {
    item => RowMatches(item, columns, searchTerm, stringify)
  }

  /** `filteredData`: the rows kept for the search term, in table order. */
  function FilterRows(data: seq<DataItem>, columns: seq<Column>, searchTerm: string,
                      stringify: Value -> JsonResult): (rows: seq<DataItem>)
    ensures forall i :: 0 <= i < |rows| ==> RowMatches(rows[i], columns, searchTerm, stringify)
  {
    Seqs.Filter(data, KeepRow(columns, searchTerm, stringify))
  }

  // ----- Cell renderers -----

  datatype Link = Link(name: string, url: string)

  /** What a cell shows: a muted placeholder ("-", "[Array]", "[Object]"), plain text,
      a list of tag badges or a list of link buttons. */
  datatype Cell =
    | Placeholder(mark: string)
    | Text(text: string)
    | TagList(tags: seq<string>)
    | LinkList(links: seq<Link>)

  /** A string entry whose trim is not empty. */
  predicate IsTag(v: Value) { v.Str? && !IsBlank(v.s) }

  /** The surviving tags of an array, in order. */
  function KeptTags(xs: seq<Value>): (tags: seq<string>)
    ensures forall i :: 0 <= i < |tags| ==> !IsBlank(tags[i])
  {
    Seqs.Map(Seqs.Filter(xs, IsTag), TagText)
  }

  /** The text of a string entry. */
  function TagText(v: Value): string
  {
    if v.Str? then v.s else ""
  }

  /** `Renderers.tags`. */
  function Tags(v: Value): (c: Cell)
    ensures c.Placeholder? || c.TagList?
    ensures c.Placeholder? ==> c.mark == "-"
    ensures c.TagList? ==> v.Arr? && 0 < |c.tags| <= |v.items|
    ensures c.TagList? ==> forall i :: 0 <= i < |c.tags| ==> !IsBlank(c.tags[i])
  {
    if !v.Arr? || |v.items| == 0 then Placeholder("-")
    else
      var tags := KeptTags(v.items);
      if |tags| == 0 then Placeholder("-") else TagList(tags)
  }

  /** An object whose `name` and `url` are strings with a non-empty trim. */
  predicate IsLinkItem(v: Value)
  {
    && v.Obj?
    && "name" in v.fields && v.fields["name"].Str? && !IsBlank(v.fields["name"].s)
    && "url" in v.fields && v.fields["url"].Str? && !IsBlank(v.fields["url"].s)
  }

  /** The string under `key` of an object entry, or nothing. */
  function TextField(v: Value, key: string): string
  {
    if v.Obj? && key in v.fields && v.fields[key].Str? then v.fields[key].s else ""
  }

  /** The link a valid entry stands for. */
  function LinkOf(v: Value): Link
  {
    Link(TextField(v, "name"), TextField(v, "url"))
  }

  /** The valid links of an array, in order. */
  function KeptLinks(xs: seq<Value>): (links: seq<Link>)
    ensures forall i :: 0 <= i < |links| ==> !IsBlank(links[i].name) && !IsBlank(links[i].url)
  {
    Seqs.Map(Seqs.Filter(xs, IsLinkItem), LinkOf)
  }

  /** `Renderers.links`. */
  function Links(v: Value): (c: Cell)
    ensures c.Placeholder? || c.LinkList?
    ensures c.Placeholder? ==> c.mark == "-"
    ensures c.LinkList? ==> v.Arr? && 0 < |c.links| <= |v.items|
    ensures c.LinkList? ==> forall i :: 0 <= i < |c.links| ==> !IsBlank(c.links[i].name) && !IsBlank(c.links[i].url)
  {
    if !v.Arr? || |v.items| == 0 then Placeholder("-")
    else
      var links := KeptLinks(v.items);
      if |links| == 0 then Placeholder("-") else LinkList(links)
  }

  /** `Renderers.text`. */
  function TextCell(v: Value): (c: Cell)
    ensures c.Placeholder? <==> Nullish(v) || v == Str("")
    ensures c.Placeholder? ==> c.mark == "-"
    ensures !c.Placeholder? ==> c == Text(ToJsString(v))
  {
    if Nullish(v) || v == Str("") then Placeholder("-") else Text(ToJsString(v))
  }

  /** Every entry is a string or a number. */
  predicate AllScalars(xs: seq<Value>) { forall i :: 0 <= i < |xs| ==> xs[i].Str? || xs[i].Num? }

  /** `renderDefaultValue`: the cell of a column without a renderer. */
  function DefaultCell(v: Value): (c: Cell)
    ensures c.Placeholder? <==> Nullish(v) || v == Str("") || v.Obj? || (v.Arr? && !AllScalars(v.items))
    ensures c.Placeholder? ==> c.mark == (if v.Obj? then "[Object]" else if v.Arr? then "[Array]" else "-")
    ensures !c.Placeholder? ==> c.Text?
  {
    if Nullish(v) || v == Str("") then Placeholder("-")
    else if v.Arr? then
      if AllScalars(v.items) then Text(Join(seq(|v.items|, i requires 0 <= i < |v.items| => ToJsString(v.items[i])), ", "))
      else Placeholder("[Array]")
    else if v.Obj? then Placeholder("[Object]")
    else Text(ToJsString(v))
  }

  // ----- Properties of trimming and lower-casing -----

  lemma {:induction false} TrimStartEmptyIff(s: string)
    ensures TrimStart(s) == [] <==> AllWhitespace(s)
    ensures TrimStart(s) != [] ==> !IsJsWhitespace(TrimStart(s)[0])
  {
    if s != [] && IsJsWhitespace(s[0]) {
      TrimStartEmptyIff(s[1..]);
      assert AllWhitespace(s[1..]) ==> AllWhitespace(s) by {
        if AllWhitespace(s[1..]) {
          forall i | 1 <= i < |s| ensures IsJsWhitespace(s[i]) { assert s[i] == s[1..][i - 1]; }
        }
      }
    }
  }

  lemma {:induction false} TrimEndKeepsNonBlankStart(t: string)
    requires t != [] && !IsJsWhitespace(t[0])
    ensures TrimEnd(t) != []
    decreases |t|
  {
    if IsJsWhitespace(t[|t| - 1]) {
      assert |t| > 1;
      assert t[..|t| - 1][0] == t[0];
      TrimEndKeepsNonBlankStart(t[..|t| - 1]);
    }
  }

  /** `trim()` leaves nothing exactly when every character is white space. */
  lemma BlankIffAllWhitespace(s: string)
    ensures IsBlank(s) <==> AllWhitespace(s)
  {
    TrimStartEmptyIff(s);
    if TrimStart(s) != [] {
      TrimEndKeepsNonBlankStart(TrimStart(s));
    }
  }

  lemma LowerIdempotent(s: string)
    ensures Lower(Lower(s)) == Lower(s)
  {
  }

  /** Lower-casing neither creates nor removes white space. */
  lemma LowerKeepsBlankness(s: string)
    ensures IsBlank(Lower(s)) <==> IsBlank(s)
  {
    BlankIffAllWhitespace(s);
    BlankIffAllWhitespace(Lower(s));
    assert forall i :: 0 <= i < |s| ==> (IsJsWhitespace(Lower(s)[i]) <==> IsJsWhitespace(s[i]));
  }

  lemma IncludesTransitive(a: string, b: string, c: string)
    requires Includes(a, b) && Includes(b, c)
    ensures Includes(a, c)
  {
    var i :| 0 <= i <= |a| && b <= a[i..];
    var j :| 0 <= j <= |b| && c <= b[j..];
    assert c <= a[i + j..] by {
      forall k | 0 <= k < |c| ensures c[k] == a[i + j..][k] {
        assert c[k] == b[j + k] == a[i + j + k];
      }
    }
  }

  lemma IncludedInWhitespace(a: string, b: string)
    requires Includes(a, b) && AllWhitespace(a)
    ensures AllWhitespace(b)
  {
    var i :| 0 <= i <= |a| && b <= a[i..];
    forall k | 0 <= k < |b| ensures IsJsWhitespace(b[k]) { assert b[k] == a[i + k]; }
  }

  // ----- Properties of the search -----

  /** A blank search term (empty or white space only) keeps every row. */
  lemma BlankTermKeepsAllRows(data: seq<DataItem>, columns: seq<Column>, searchTerm: string,
                              stringify: Value -> JsonResult)
    requires AllWhitespace(searchTerm)
    ensures FilterRows(data, columns, searchTerm, stringify) == data
  {
    BlankIffAllWhitespace(searchTerm);
    Seqs.FilterKeepsAll(data, KeepRow(columns, searchTerm, stringify));
  }

  /** The filtered rows are the matching rows of the data in their original order:
      each matching row survives as often as it occurs and no other row does. */
  lemma FilteredRowsExactly(data: seq<DataItem>, columns: seq<Column>, searchTerm: string,
                            stringify: Value -> JsonResult, row: DataItem)
    ensures Seqs.IsSubsequence(FilterRows(data, columns, searchTerm, stringify), data)
    ensures multiset(FilterRows(data, columns, searchTerm, stringify))[row]
         == if RowMatches(row, columns, searchTerm, stringify) then multiset(data)[row] else 0
  {
    Seqs.FilterIsSubsequence(data, KeepRow(columns, searchTerm, stringify));
    Seqs.FilterCounts(data, KeepRow(columns, searchTerm, stringify), row);
  }

  /** The search ignores the case of the term. */
  lemma SearchIgnoresTermCase(item: DataItem, columns: seq<Column>, searchTerm: string,
                              stringify: Value -> JsonResult)
    ensures RowMatches(item, columns, Lower(searchTerm), stringify)
        <==> RowMatches(item, columns, searchTerm, stringify)
  {
    LowerKeepsBlankness(searchTerm);
    LowerIdempotent(searchTerm);
  }

  /** A column that is not searchable never decides the search: its value can be
      anything. */
  lemma NonSearchableColumnIgnored(item: DataItem, columns: seq<Column>, key: string, v: Value,
                                   searchTerm: string, stringify: Value -> JsonResult)
    requires forall j :: 0 <= j < |columns| && columns[j].key == key ==> !columns[j].searchable
    ensures RowMatches(item[key := v], columns, searchTerm, stringify)
        <==> RowMatches(item, columns, searchTerm, stringify)
  {
    forall j | 0 <= j < |columns| && columns[j].searchable
      ensures Lookup(item[key := v], columns[j].key) == Lookup(item, columns[j].key)
    {
      assert columns[j].key != key;
    }
  }

  /** For a non-blank term, a row whose searchable cells are all `undefined` or `null`
      (or missing) is dropped. */
  lemma NullishCellsNeverMatch(item: DataItem, columns: seq<Column>, searchTerm: string,
                               stringify: Value -> JsonResult)
    requires !AllWhitespace(searchTerm)
    requires forall j :: 0 <= j < |columns| && columns[j].searchable ==> Nullish(Lookup(item, columns[j].key))
    ensures !RowMatches(item, columns, searchTerm, stringify)
  {
    BlankIffAllWhitespace(searchTerm);
  }

  /** A term that contains another one keeps no row the shorter term dropped:
      typing more never brings a row back. */
  lemma LongerTermKeepsFewerRows(data: seq<DataItem>, columns: seq<Column>, shorter: string,
                                 longer: string, stringify: Value -> JsonResult)
    requires Includes(Lower(longer), Lower(shorter))
    ensures Seqs.IsSubsequence(FilterRows(data, columns, longer, stringify),
                               FilterRows(data, columns, shorter, stringify))
  {
    if AllWhitespace(shorter) {
      BlankTermKeepsAllRows(data, columns, shorter, stringify);
      Seqs.FilterIsSubsequence(data, KeepRow(columns, longer, stringify));
    } else {
      NonBlankTermNarrows(data, columns, shorter, longer, stringify);
    }
  }

  lemma NonBlankTermNarrows(data: seq<DataItem>, columns: seq<Column>, shorter: string,
                            longer: string, stringify: Value -> JsonResult)
    requires !AllWhitespace(shorter)
    requires Includes(Lower(longer), Lower(shorter))
    ensures Seqs.IsSubsequence(FilterRows(data, columns, longer, stringify),
                               FilterRows(data, columns, shorter, stringify))
  {
    BlankIffAllWhitespace(shorter);
    BlankIffAllWhitespace(longer);
    if AllWhitespace(longer) {
      LowerKeepsBlankness(longer);
      BlankIffAllWhitespace(Lower(longer));
      IncludedInWhitespace(Lower(longer), Lower(shorter));
      BlankIffAllWhitespace(Lower(shorter));
      LowerKeepsBlankness(shorter);
      assert false;
    }
    var strong := KeepRow(columns, longer, stringify);
    var weak := KeepRow(columns, shorter, stringify);
    forall item | strong(item) ensures weak(item) {
      var j :| 0 <= j < |columns| && columns[j].searchable
             && ValueMatches(Lookup(item, columns[j].key), Lower(longer), stringify);
      ValueMatchNarrows(Lookup(item, columns[j].key), Lower(longer), Lower(shorter), stringify);
    }
    Seqs.FilterNarrows(data, strong, weak);
    Seqs.FilterIsSubsequence(FilterRows(data, columns, shorter, stringify), strong);
  }

  lemma ValueMatchNarrows(v: Value, longer: string, shorter: string, stringify: Value -> JsonResult)
    requires Includes(longer, shorter)
    requires ValueMatches(v, longer, stringify)
    ensures ValueMatches(v, shorter, stringify)
  {
    match v
    case Str(s) => IncludesTransitive(Lower(s), longer, shorter);
    case Arr(xs) =>
      var i :| 0 <= i < |xs| && !Nullish(xs[i]) && Includes(Lower(ToJsString(xs[i])), longer);
      IncludesTransitive(Lower(ToJsString(xs[i])), longer, shorter);
    case Obj(_) =>
      var text := stringify(v).text;
      IncludesTransitive(Lower(text), longer, shorter);
    case Num(_) => IncludesTransitive(Lower(ToJsString(v)), longer, shorter);
    case Bool(_) => IncludesTransitive(Lower(ToJsString(v)), longer, shorter);
  }

  /** An array of strings, numbers and booleans matches exactly when one of its
      entries would match on its own. */
  lemma ScalarArrayMatchesByEntry(xs: seq<Value>, term: string, stringify: Value -> JsonResult)
    requires forall i :: 0 <= i < |xs| ==> !xs[i].Arr? && !xs[i].Obj?
    ensures ValueMatches(Arr(xs), term, stringify)
        <==> exists i :: 0 <= i < |xs| && ValueMatches(xs[i], term, stringify)
  {
  }

  lemma IncludesFirstChar(s: string, t: string)
    requires Includes(s, t) && t != []
    ensures exists k :: 0 <= k < |s| && s[k] == t[0]
  {
    var i :| 0 <= i <= |s| && t <= s[i..];
    assert s[i] == t[0];
  }

  /** The term is lower-cased: "APP" finds the row named "Apple". */
  lemma UpperCaseTermMatches(stringify: Value -> JsonResult)
    ensures RowMatches(map["name" := Str("Apple")], [Column("name", "Name", true)], "APP", stringify)
  {
    var columns := [Column("name", "Name", true)];
    var item := map["name" := Str("Apple")];
    assert Lookup(item, columns[0].key) == Str("Apple");
    assert Lower("Apple") == "apple";
    assert Lower("APP") == "app";
    assert "app" <= "apple"[0..];
    assert !AllWhitespace("APP") by { assert !IsJsWhitespace("APP"[0]); }
    BlankIffAllWhitespace("APP");
    assert ValueMatches(Lookup(item, columns[0].key), Lower("APP"), stringify);
  }

  /** The term is not trimmed: " app" does not find the row named "Apple". */
  lemma LeadingSpaceTermMisses(stringify: Value -> JsonResult)
    ensures !RowMatches(map["name" := Str("Apple")], [Column("name", "Name", true)], " app", stringify)
  {
    var columns := [Column("name", "Name", true)];
    var item := map["name" := Str("Apple")];
    assert Lookup(item, columns[0].key) == Str("Apple");
    assert !AllWhitespace(" app") by { assert !IsJsWhitespace(" app"[1]); }
    BlankIffAllWhitespace(" app");
    assert Lower(" app")[0] == ' ';
    if Includes(Lower("Apple"), Lower(" app")) {
      IncludesFirstChar(Lower("Apple"), Lower(" app"));
      assert false;
    }
  }

  // ----- Properties of the renderers -----

  lemma KeptTagsAppend(a: seq<Value>, b: seq<Value>)
    ensures KeptTags(a + b) == KeptTags(a) + KeptTags(b)
  {
    Seqs.FilterAppend(a, b, IsTag);
    Seqs.MapAppend(Seqs.Filter(a, IsTag), Seqs.Filter(b, IsTag), TagText);
  }

  lemma KeptTagsSingleton(x: Value)
    ensures KeptTags([x]) == if IsTag(x) then [x.s] else []
  {
    Seqs.FilterSingleton(x, IsTag);
  }

  /** The tags renderer shows the placeholder exactly when the value is not an array
      or none of its entries is a non-blank string; otherwise it shows the kept tags. */
  lemma TagsPlaceholderIff(v: Value)
    ensures Tags(v).Placeholder? <==> !v.Arr? || forall i :: 0 <= i < |v.items| ==> !IsTag(v.items[i])
    ensures Tags(v).Placeholder? ==> Tags(v).mark == "-"
    ensures !Tags(v).Placeholder? ==> Tags(v) == TagList(KeptTags(v.items)) && |Tags(v).tags| > 0
  {
    if v.Arr? {
      Seqs.FilterEmptyIff(v.items, IsTag);
    }
  }

  lemma KeptLinksAppend(a: seq<Value>, b: seq<Value>)
    ensures KeptLinks(a + b) == KeptLinks(a) + KeptLinks(b)
  {
    Seqs.FilterAppend(a, b, IsLinkItem);
    Seqs.MapAppend(Seqs.Filter(a, IsLinkItem), Seqs.Filter(b, IsLinkItem), LinkOf);
  }

  lemma KeptLinksSingleton(x: Value)
    ensures KeptLinks([x]) == if IsLinkItem(x) then [LinkOf(x)] else []
  {
    Seqs.FilterSingleton(x, IsLinkItem);
  }

  /** The links renderer shows the placeholder exactly when the value is not an array
      or none of its entries is a valid link object; otherwise it shows the kept links. */
  lemma LinksPlaceholderIff(v: Value)
    ensures Links(v).Placeholder? <==> !v.Arr? || forall i :: 0 <= i < |v.items| ==> !IsLinkItem(v.items[i])
    ensures Links(v).Placeholder? ==> Links(v).mark == "-"
    ensures !Links(v).Placeholder? ==> Links(v) == LinkList(KeptLinks(v.items)) && |Links(v).links| > 0
  {
    if v.Arr? {
      Seqs.FilterEmptyIff(v.items, IsLinkItem);
    }
  }

  /** On a value that is neither an array nor an object the default cell and the
      text renderer agree. */
  lemma DefaultCellIsTextOnScalars(v: Value)
    requires !v.Arr? && !v.Obj?
    ensures DefaultCell(v) == TextCell(v)
  {
  }

  /** Arrays of strings and numbers are shown joined by ", "; an array holding
      anything else is shown as "[Array]". */
  lemma DefaultCellArrayExamples()
    ensures DefaultCell(Arr([Str("AI"), Num("3")])) == Text("AI, 3")
    ensures DefaultCell(Arr([])) == Text("")
    ensures DefaultCell(Arr([Str("AI"), Null])) == Placeholder("[Array]")
    ensures DefaultCell(Obj(map[])) == Placeholder("[Object]")
    ensures DefaultCell(Str("")) == Placeholder("-")
  {
    var xs := [Str("AI"), Num("3")];
    assert seq(|xs|, i requires 0 <= i < |xs| => ToJsString(xs[i])) == ["AI", "3"];
    assert Join(["AI", "3"], ", ") == "AI" + ", " + Join(["3"], ", ");
    var ys := [Str("AI"), Null];
    assert !(ys[1].Str? || ys[1].Num?);
  }

  /** Joining one more part appends the separator and that part. */
  lemma {:induction false} JoinSnoc(parts: seq<string>, p: string, sep: string)
    requires parts != []
    ensures Join(parts + [p], sep) == Join(parts, sep) + sep + p
  {
    if |parts| == 1 {
      assert parts + [p] == [parts[0], p];
      assert Join([p], sep) == p;
    } else {
      assert (parts + [p])[1..] == parts[1..] + [p];
      JoinSnoc(parts[1..], p, sep);
    }
  }

  /** `String` of an array with one more entry: the earlier text, a comma, and
      the new entry's text (empty for `undefined` and `null`). */
  lemma ToJsStringSnoc(xs: seq<Value>, x: Value)
    requires xs != []
    ensures ToJsString(Arr(xs + [x])) == ToJsString(Arr(xs)) + "," + (if Nullish(x) then "" else ToJsString(x))
  {
    var ys := xs + [x];
    var parts := seq(|xs|, i requires 0 <= i < |xs| => if Nullish(xs[i]) then "" else ToJsString(xs[i]));
    var last := if Nullish(x) then "" else ToJsString(x);
    assert seq(|ys|, i requires 0 <= i < |ys| => if Nullish(ys[i]) then "" else ToJsString(ys[i])) == parts + [last];
    JoinSnoc(parts, last, ",");
  }

  /** An array holding one string or number is shown as that entry's text. */
  lemma DefaultCellSingleton(x: Value)
    requires x.Str? || x.Num?
    ensures DefaultCell(Arr([x])) == Text(ToJsString(x))
  {
    var xs := [x];
    assert seq(|xs|, i requires 0 <= i < |xs| => ToJsString(xs[i])) == [ToJsString(x)];
  }

  /** A further string or number in an all-scalar array is shown after the
      earlier entries and a ", ". */
  lemma DefaultCellSnoc(xs: seq<Value>, x: Value)
    requires xs != [] && AllScalars(xs) && (x.Str? || x.Num?)
    ensures DefaultCell(Arr(xs + [x])).Text?
    ensures DefaultCell(Arr(xs + [x])).text == DefaultCell(Arr(xs)).text + ", " + ToJsString(x)
  {
    var ys := xs + [x];
    var parts := seq(|xs|, i requires 0 <= i < |xs| => ToJsString(xs[i]));
    assert AllScalars(ys) by {
      forall i | 0 <= i < |ys| ensures ys[i].Str? || ys[i].Num? {
        if i < |xs| { assert ys[i] == xs[i]; }
      }
    }
    assert seq(|ys|, i requires 0 <= i < |ys| => ToJsString(ys[i])) == parts + [ToJsString(x)];
    JoinSnoc(parts, ToJsString(x), ", ");
  }

  /** `String(value)` on a few values: nested arrays are flattened with commas and
      `null` inside an array shows as nothing. */
  lemma ToJsStringExamples()
    ensures ToJsString(Arr([Num("1"), Null, Str("a")])) == "1,,a"
    ensures ToJsString(Arr([Arr([Num("1"), Num("2")]), Num("3")])) == "1,2,3"
    ensures ToJsString(Arr([])) == ""
    ensures ToJsString(Bool(true)) == "true"
    ensures ToJsString(Undefined) == "undefined"
    ensures ToJsString(Obj(map[])) == "[object Object]"
  {
    var xs := [Num("1"), Null, Str("a")];
    assert seq(|xs|, i requires 0 <= i < |xs| => if Nullish(xs[i]) then "" else ToJsString(xs[i])) == ["1", "", "a"];
    assert Join(["1", "", "a"], ",") == "1" + "," + Join(["", "a"], ",");
    assert Join(["", "a"], ",") == "" + "," + Join(["a"], ",");
    var inner := [Num("1"), Num("2")];
    assert seq(|inner|, i requires 0 <= i < |inner| => if Nullish(inner[i]) then "" else ToJsString(inner[i])) == ["1", "2"];
    assert Join(["1", "2"], ",") == "1" + "," + Join(["2"], ",");
    assert ToJsString(Arr(inner)) == "1,2";
    var ys := [Arr(inner), Num("3")];
    assert seq(|ys|, i requires 0 <= i < |ys| => if Nullish(ys[i]) then "" else ToJsString(ys[i])) == ["1,2", "3"];
    assert Join(["1,2", "3"], ",") == "1,2" + "," + Join(["3"], ",");
  }
}
