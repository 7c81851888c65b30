/**
 * The CSV dump of the contacts and the parser that restores it. A contact is its text fields by name,
 * limited to the fields that dump_db writes.
 */
module Csv {
  import opened Basics

  const NUL: char := '\0'
  const CR: char := '\r'
  const LF: char := '\n'
  const COMMA: char := ','
  const QUOTE: char := '"'
  const LINE: nat := 12286   // what fgets takes at most
  const FIELDS: nat := 2048
  const TMPVAL: nat := 128

  // ---------- the columns ----------

  datatype Mapping = Mapping(field: string, heading: string)

  function FieldMappings(): (t: seq<Mapping>)
    ensures |t| == 40
  {
    [ Mapping("contactid", ""), Mapping("obj_ctime", ""), Mapping("obj_mtime", ""), Mapping("obj_uid", ""),
      Mapping("obj_gid", ""), Mapping("obj_did", ""), Mapping("obj_gperm", ""), Mapping("obj_operm", ""),
      Mapping("loginip", ""), Mapping("logintime", ""), Mapping("logintoken", ""),
      Mapping("username", "Nickname"), Mapping("password", ""), Mapping("enabled", ""), Mapping("geozone", ""),
      Mapping("timezone", ""), Mapping("surname", "Last Name"), Mapping("givenname", "First Name"),
      Mapping("salutation", "Title"), Mapping("contacttype", ""), Mapping("referredby", "Referred By"),
      Mapping("altcontact", ""), Mapping("prefbilling", ""), Mapping("email", "E-mail Address"),
      Mapping("homenumber", "Home Phone"), Mapping("worknumber", "Business Phone"),
      Mapping("faxnumber", "Business Fax"), Mapping("mobilenumber", "Mobile Phone"),
      Mapping("jobtitle", "Job Title"), Mapping("organization", "Company"),
      Mapping("homeaddress", "Home Street"), Mapping("homelocality", "Home City"),
      Mapping("homeregion", "Home State"), Mapping("homecountry", "Home Country"),
      Mapping("homepostalcode", "Home Postal Code"), Mapping("workaddress", "Business Street"),
      Mapping("worklocality", "Business City"), Mapping("workregion", "Business State"),
      Mapping("workcountry", "Business Country"), Mapping("workpostalcode", "Business Postal Code") ]
  }

  // The fields in the order dump_db writes them.
  function Written(): (w: seq<string>)
    ensures |w| == COLUMNS && w[COLUMNS - 1] == LAST
  {
    [ "username", "surname", "givenname", "salutation", "referredby", "email", "homenumber", "worknumber",
      "faxnumber", "mobilenumber", "jobtitle", "organization", "homeaddress", "homelocality", "homeregion",
      "homecountry", "homepostalcode", "workaddress", "worklocality", "workregion", "workcountry",
      "workpostalcode" ]
  }

  const COLUMNS: nat := 22
  const LAST: string := "workpostalcode"

  // Row of the mapping table that names column k.
  function MappingOf(k: nat): (i: nat)
    requires k < COLUMNS
    ensures i < 40
  {
    if k == 0 then 11 else if k < 4 then k + 15 else if k == 4 then 20 else k + 18
  }

  // Declared sizes of the text fields.
  function Room(field: string): (n: nat)
    ensures 11 <= n <= 51
  {
    if field in ["homenumber", "worknumber", "faxnumber", "mobilenumber"] then 26
    else if field in ["homepostalcode", "workpostalcode"] then 11
    else 51
  }

  // The sizes by column: four telephone numbers, two postal codes, and the rest.
  lemma RoomOf(k: nat)
    requires k < COLUMNS
    ensures Room(Written()[k]) == if 6 <= k <= 9 then 26 else if k == 16 || k == 21 then 11 else 51
  {}

  // ---------- looking columns up ----------

  function Fold(c: char): char {
    if 'A' <= c <= 'Z' then c + 32 as char else c
  }

  predicate EqualNoCase(a: string, b: string) {
    |a| == |b| && forall i :: 0 <= i < |a| ==> Fold(a[i]) == Fold(b[i])
  }

  function Find(name: string, table: seq<Mapping>): (r: Option<string>)
    ensures r.None? <==> forall i :: 0 <= i < |table| ==> EqualNoCase(name, table[i].heading) ==> table[i].field == ""
  {
    if table == [] then None
    else if EqualNoCase(name, table[0].heading) && table[0].field != "" then Some(table[0].field)
    else Find(name, table[1..])
  }

  function FindHeading(name: string, table: seq<Mapping>): (r: Option<string>)
    ensures r.None? <==> forall i :: 0 <= i < |table| ==> EqualNoCase(name, table[i].field) ==> table[i].heading == ""
  {
    if table == [] then None
    else if EqualNoCase(name, table[0].field) && table[0].heading != "" then Some(table[0].heading)
    else FindHeading(name, table[1..])
  }

  lemma {:induction false} FindUnique(name: string, table: seq<Mapping>, k: nat)
    requires k < |table| && EqualNoCase(name, table[k].heading) && table[k].field != ""
    requires forall i :: 0 <= i < k ==> !EqualNoCase(name, table[i].heading)
    ensures Find(name, table) == Some(table[k].field)
  {
    if k > 0 {
      assert !EqualNoCase(name, table[0].heading);
      assert forall i :: 0 <= i < k - 1 ==> table[1..][i] == table[i + 1];
      FindUnique(name, table[1..], k - 1);
    }
  }

  // One letter in either case, or the same character.
  predicate SameLetter(c: char, d: char) {
    c == d || ('A' <= c <= 'Z' && d as int == c as int + 32) || ('A' <= d <= 'Z' && c as int == d as int + 32)
  }

  lemma SameButForCase(a: string, b: string)
    ensures EqualNoCase(a, b) <==> |a| == |b| && forall i :: 0 <= i < |a| ==> SameLetter(a[i], b[i])
  {
    assert forall c, d :: Fold(c) == Fold(d) <==> SameLetter(c, d);
  }

  // Changing the case of letters finds the same field, and the same heading.
  lemma {:induction false} CaseDoesNotMatter(a: string, b: string, table: seq<Mapping>)
    requires |a| == |b| && forall i :: 0 <= i < |a| ==> SameLetter(a[i], b[i])
    ensures Find(a, table) == Find(b, table) && FindHeading(a, table) == FindHeading(b, table)
  {
    SameButForCase(a, b);
    if table != [] {
      assert EqualNoCase(a, table[0].heading) <==> EqualNoCase(b, table[0].heading);
      assert EqualNoCase(a, table[0].field) <==> EqualNoCase(b, table[0].field);
      CaseDoesNotMatter(a, b, table[1..]);
    }
  }

  // The column a heading stands for, told from its length and its last letter but one.
  function HeadingColumn(n: nat, c: char): nat {
    if n == 8 then 0 else if n == 9 then (if c == 'm' then 1 else if c == 'l' then 10 else 13)
    else if n == 10 then (if c == 'm' then 2 else if c == 'n' then 6 else 14)
    else if n == 5 then 3 else if n == 11 then (if c == 'b' then 4 else 12)
    else if n == 14 then (if c == 's' then 5 else if c == 'n' then 7 else 19)
    else if n == 12 then (if c == 'a' then 8 else if c == 'n' then 9 else 15)
    else if n == 7 then 11 else if n == 16 then (if c == 'd' then 16 else 20)
    else if n == 15 then 17 else if n == 13 then 18 else 21
  }

  lemma PersonIsTold(k: nat)
    requires k < 10
    ensures var s := FieldMappings()[MappingOf(k)].heading; |s| >= 5 && HeadingColumn(|s|, Fold(s[|s| - 2])) == k
  {}

  lemma PlaceIsTold(k: nat)
    requires 10 <= k < COLUMNS
    ensures var s := FieldMappings()[MappingOf(k)].heading; |s| >= 5 && HeadingColumn(|s|, Fold(s[|s| - 2])) == k
  {}

  lemma HeadingIsTold(k: nat)
    requires k < COLUMNS
    ensures var s := FieldMappings()[MappingOf(k)].heading; |s| >= 5 && HeadingColumn(|s|, Fold(s[|s| - 2])) == k
  {
    hide FieldMappings, HeadingColumn;
    if k < 10 {
      PersonIsTold(k);
    } else {
      PlaceIsTold(k);
    }
  }

  lemma PersonInOrder(k: nat)
    requires k < 10
    ensures FieldMappings()[MappingOf(k)].field == Written()[k]
  {}

  lemma PlaceInOrder(k: nat)
    requires 10 <= k < COLUMNS
    ensures FieldMappings()[MappingOf(k)].field == Written()[k]
  {}

  // dump_db writes the values in the order of the table.
  lemma SameOrder(k: nat)
    requires k < COLUMNS
    ensures FieldMappings()[MappingOf(k)].field == Written()[k]
  {
    hide FieldMappings, Written;
    if k < 10 {
      PersonInOrder(k);
    } else {
      PlaceInOrder(k);
    }
  }

  lemma OthersBlank(i: nat)
    requires i < 40
    ensures FieldMappings()[i].heading == "" || exists k: nat :: k < COLUMNS && MappingOf(k) == i
  {
    assert MappingOf(0) == 11 && MappingOf(1) == 16 && MappingOf(2) == 17 && MappingOf(3) == 18 && MappingOf(4) == 20;
    if i >= 23 {
      assert MappingOf(i - 18) == i;
    }
  }

  // One line and one cell.
  predicate Flat(s: string) {
    forall i :: 0 <= i < |s| ==> s[i] != COMMA && s[i] != LF && s[i] != NUL
  }

  predicate Plain(s: string) {
    forall i :: 0 <= i < |s| ==> s[i] != COMMA && s[i] != QUOTE && s[i] != LF && s[i] != NUL
  }

  // Plain, short and free of carriage returns.
  predicate Simple(s: string) {
    |s| <= 20 && Plain(s) && CR !in s
  }

  lemma PersonSimple()
    ensures Simple("Nickname") && Simple("Last Name") && Simple("First Name")
    ensures Simple("Title") && Simple("Referred By") && Simple("E-mail Address")
  {}

  lemma PhoneSimple()
    ensures Simple("Home Phone") && Simple("Business Phone") && Simple("Business Fax")
    ensures Simple("Mobile Phone") && Simple("Job Title") && Simple("Company")
  {}

  lemma HomeSimple()
    ensures Simple("Home Street") && Simple("Home City") && Simple("Home State")
    ensures Simple("Home Country") && Simple("Home Postal Code")
  {}

  lemma BusinessSimple()
    ensures Simple("Business Street") && Simple("Business City") && Simple("Business State")
    ensures Simple("Business Country") && Simple("Business Postal Code")
  {}

  lemma HeadingSimple(k: nat)
    requires k < COLUMNS
    ensures Simple(FieldMappings()[MappingOf(k)].heading)
  {
    hide Simple;
    PersonSimple();
    PhoneSimple();
    HomeSimple();
    BusinessSimple();
  }

  function Headings(): (h: seq<string>)
    ensures |h| == COLUMNS && forall k: nat :: k < COLUMNS ==> h[k] == FieldMappings()[MappingOf(k)].heading
  {
    seq(COLUMNS, k requires 0 <= k < COLUMNS => FieldMappings()[MappingOf(k)].heading)
  }

  lemma ToldAlike(a: string, b: string)
    requires |a| >= 5 && |b| >= 5
    ensures EqualNoCase(a, b) ==> HeadingColumn(|a|, Fold(a[|a| - 2])) == HeadingColumn(|b|, Fold(b[|b| - 2]))
  {}

  // Equal headings but for case are the same heading, so every heading finds its own field.
  lemma HeadingFindsField(k: nat)
    requires k < COLUMNS
    ensures Find(Headings()[k], FieldMappings()) == Some(Written()[k])
  {
    hide FieldMappings, Written, HeadingColumn, Headings;
    var t, s := FieldMappings(), Headings()[k];
    HeadingIsTold(k);
    SameOrder(k);
    FieldNamed(k);
    forall i: nat | i < MappingOf(k) ensures !EqualNoCase(s, t[i].heading) {
      if j: nat :| j < COLUMNS && MappingOf(j) == i {
        HeadingIsTold(j);
        ToldAlike(s, t[i].heading);
      } else {
        OthersBlank(i);
      }
    }
    FindUnique(s, t, MappingOf(k));
  }

  lemma FieldsDiffer(j: nat, k: nat)
    requires j < k < COLUMNS
    ensures Written()[j] != Written()[k]
  {}

  lemma FieldNamed(k: nat)
    requires k < COLUMNS
    ensures Written()[k] != ""
  {}

  // ---------- text in cells ----------

  // The C string at the start of a buffer.
  function CString(s: string): (r: string)
    ensures r <= s && NUL !in r && (|r| < |s| ==> s[|r|] == NUL)
  {
    if s == [] || s[0] == NUL then [] else [s[0]] + CString(s[1..])
  }

  // The cells of a line behind the text tmp of the first: commas separate, quotes are dropped.
  function CellsFrom(tmp: string, s: string): (cells: seq<string>)
    ensures |cells| > 0
    decreases |s|
  {
    if s == [] then [tmp]
    else if s[0] == COMMA then [tmp] + CellsFrom([], s[1..])
    else if s[0] == QUOTE then CellsFrom(tmp, s[1..])
    else CellsFrom(tmp + [s[0]], s[1..])
  }

  function Cells(s: string): (cells: seq<string>)
    ensures |cells| > 0
  {
    CellsFrom([], s)
  }

  function Unquoted(s: string): (r: string)
    ensures |r| <= |s|
  {
    if s == [] then [] else (if s[0] == QUOTE then [] else [s[0]]) + Unquoted(s[1..])
  }

  function UnquotedAll(values: seq<string>): (r: seq<string>)
    ensures |r| == |values| && forall i :: 0 <= i < |values| ==> r[i] == Unquoted(values[i])
  {
    seq(|values|, i requires 0 <= i < |values| => Unquoted(values[i]))
  }

  lemma {:induction false} QuotesDropped(s: string)
    ensures QUOTE !in s <==> |Unquoted(s)| == |s|
    ensures QUOTE !in s ==> Unquoted(s) == s
  {
    if s != [] {
      assert s == [s[0]] + s[1..];
      QuotesDropped(s[1..]);
    }
  }

  function Quoted(v: string): string {
    [QUOTE] + v + [QUOTE]
  }

  function Row(values: seq<string>): string {
    if values == [] then []
    else if |values| == 1 then Quoted(values[0])
    else Quoted(values[0]) + [COMMA] + Row(values[1..])
  }

  lemma {:induction false} RowGrows(values: seq<string>, v: string)
    ensures Row(values + [v]) == Row(values) + (if values == [] then [] else [COMMA]) + Quoted(v)
  {
    if values != [] {
      assert (values + [v])[1..] == values[1..] + [v];
      RowGrows(values[1..], v);
    }
  }

  lemma {:induction false} FlatIsOneCell(tmp: string, v: string, rest: string)
    requires Flat(v)
    ensures CellsFrom(tmp, v + rest) == CellsFrom(tmp + Unquoted(v), rest)
    decreases |v|
  {
    if v == [] {
      assert v + rest == rest && tmp + [] == tmp;
    } else {
      var c := if v[0] == QUOTE then [] else [v[0]];
      assert (v + rest)[1..] == v[1..] + rest;
      assert tmp + c + Unquoted(v[1..]) == tmp + (c + Unquoted(v[1..]));
      assert v[0] == QUOTE ==> tmp + c == tmp;
      FlatIsOneCell(tmp + c, v[1..], rest);
    }
  }

  // Splitting inverts joining, but for quotes.
  lemma {:induction false} CellsOfRow(values: seq<string>)
    requires values != [] && forall i :: 0 <= i < |values| ==> Flat(values[i])
    ensures Cells(Row(values)) == UnquotedAll(values)
    decreases |values|
  {
    RowStep(values);
    hide *;
    var v, rest := values[0], values[1..];
    if |values| == 1 {
      FirstCell(v, []);
      LastCell(Unquoted(v));
      assert Quoted(v) + [] == Quoted(v);
      assert UnquotedAll(values) == [Unquoted(v)];
    } else {
      FirstCell(v, [COMMA] + Row(rest));
      NextCell(Unquoted(v), Row(rest));
      CellsOfRow(rest);
      assert UnquotedAll(values) == [Unquoted(v)] + UnquotedAll(rest);
    }
  }

  lemma {:induction false} RowStep(values: seq<string>)
    requires values != []
    ensures |values| == 1 ==> Row(values) == Quoted(values[0])
    ensures |values| > 1 ==> Row(values) == Quoted(values[0]) + ([COMMA] + Row(values[1..]))
  {
    hide Quoted;
    if |values| > 1 {
      assert Quoted(values[0]) + [COMMA] + Row(values[1..]) == Quoted(values[0]) + ([COMMA] + Row(values[1..]));
    }
  }

  lemma LastCell(tmp: string)
    ensures CellsFrom(tmp, []) == [tmp]
  {}

  lemma NextCell(tmp: string, rest: string)
    ensures CellsFrom(tmp, [COMMA] + rest) == [tmp] + Cells(rest)
  {
    assert ([COMMA] + rest)[1..] == rest;
  }

  lemma FirstCell(v: string, more: string)
    requires Flat(v)
    ensures Cells(Quoted(v) + more) == CellsFrom(Unquoted(v), more)
  {
    hide Flat;
    var s, t := Quoted(v) + more, [QUOTE] + more;
    assert s[1..] == v + t && t[1..] == more;
    FlatIsOneCell([], v, t);
    assert [] + Unquoted(v) == Unquoted(v);
  }

  // ---------- the dump ----------

  type Contact = map<string, string>

  // A record has these fields and no others.
  ghost predicate Complete(c: Contact) {
    forall f :: f in c <==> f in Written()
  }

  ghost predicate AllComplete(contacts: seq<Contact>) {
    forall i :: 0 <= i < |contacts| ==> Complete(contacts[i])
  }

  function Values(c: Contact): (v: seq<string>)
    requires Complete(c)
    ensures |v| == COLUMNS && forall k: nat :: k < COLUMNS ==> v[k] == c[Written()[k]]
  {
    seq(COLUMNS, k requires 0 <= k < COLUMNS => c[Written()[k]])
  }

  function Rows(contacts: seq<Contact>): string
    requires AllComplete(contacts)
  {
    if contacts == [] then []
    else Row(Values(contacts[0])) + [LF] + Rows(contacts[1..])
  }

  function Dumped(contacts: seq<Contact>): string
    requires AllComplete(contacts)
  {
    Row(Headings()) + [LF] + Rows(contacts)
  }

  // The characters of a row and of a line: 34 is the quotation mark, 44 the comma.
  lemma RowOfTwo(v: string, w: string)
    ensures var q := 34 as char; Row([v, w]) == [q] + v + [q] + [44 as char] + ([q] + w + [q])
  {
    assert [v, w][1..] == [w];
  }

  lemma LinesOfTwo(a: Contact, b: Contact)
    requires Complete(a) && Complete(b)
    ensures AllComplete([a, b]) && Rows([a, b]) == Row(Values(a)) + "\n" + (Row(Values(b)) + "\n")
  {
    hide Row, Values, Complete;
    assert [a, b][1..] == [b] && [b][1..] == [];
    assert Rows([]) == [];
    assert Rows([b]) == Row(Values(b)) + "\n" + [];
  }

  // field_defined.
  method FieldDefined(name: string) returns (r: Option<string>)
    ensures r == FindHeading(name, FieldMappings())
  {
    var t := FieldMappings();
    hide FieldMappings;
    for i := 0 to |t|
      invariant FindHeading(name, t) == FindHeading(name, t[i..])
    {
      assert t[i..][0] == t[i] && t[i..][1..] == t[i + 1..];
      if EqualNoCase(name, t[i].field) {
        if |t[i].heading| > 0 {
          return Some(t[i].heading);
        }
      }
    }
    return None;
  }

  // r_field_defined.
  method RFieldDefined(name: string) returns (r: Option<string>)
    ensures r == Find(name, FieldMappings())
  {
    var t := FieldMappings();
    hide FieldMappings;
    for i := 0 to |t|
      invariant Find(name, t) == Find(name, t[i..])
    {
      assert t[i..][0] == t[i] && t[i..][1..] == t[i + 1..];
      if EqualNoCase(name, t[i].heading) {
        if |t[i].field| > 0 {
          return Some(t[i].field);
        }
      }
    }
    return None;
  }

  method CondWriteval(fp: string, field: string, value: string, colcount: nat) returns (out: string, written: bool)
    ensures written == FindHeading(field, FieldMappings()).Some?
    ensures out == if !written then fp else fp + (if colcount > 0 then [COMMA] else []) + Quoted(value)
  {
    hide FieldMappings, FindHeading;
    out := fp;
    var heading := FieldDefined(field);
    written := heading.Some?;
    if written {
      if colcount > 0 {
        out := out + [COMMA];
      }
      out := out + Quoted(value);
    }
  }

  lemma HasHeading(k: nat)
    requires k < COLUMNS
    ensures FindHeading(Written()[k], FieldMappings()).Some?
  {
    hide FieldMappings, Written, FindHeading;
    SameOrder(k);
    HeadingIsTold(k);
    assert EqualNoCase(Written()[k], FieldMappings()[MappingOf(k)].field);
  }

  // Columns of the table's first i rows.
  function ColumnsBefore(i: nat): (n: nat)
    requires i <= 40
    ensures n <= COLUMNS
    ensures i < 40 ==> (n < COLUMNS && MappingOf(n) == i) || (forall k: nat :: k < COLUMNS ==> MappingOf(k) != i)
  {
    if i <= 11 then 0 else if i <= 16 then 1 else if i <= 18 then i - 15
    else if i <= 20 then 4 else if i <= 23 then 5 else i - 18
  }

  // The first loop of dump_db.
  method WriteHeader() returns (fp: string)
    ensures fp == Row(Headings())
  {
    hide FieldMappings, Headings, Row;
    var t, colcount := FieldMappings(), 0;
    ghost var h := Headings();
    fp := "";
    RowOfNone();
    for i := 0 to 40
      invariant colcount == ColumnsBefore(i) && fp == Row(h[..colcount])
    {
      if colcount < COLUMNS && MappingOf(colcount) == i {
        HeadingIsTold(colcount);
        assert h[..colcount + 1] == h[..colcount] + [h[colcount]];
        RowGrows(h[..colcount], h[colcount]);
      } else {
        OthersBlank(i);
      }
      if |t[i].heading| > 0 {
        if colcount > 0 {
          fp := fp + [COMMA];
        }
        fp := fp + Quoted(t[i].heading);
        colcount := colcount + 1;
      }
    }
    assert h[..COLUMNS] == h;
  }

  lemma RowOfNone()
    ensures Row([]) == []
  {}

  // The calls of cond_writeval for one contact.
  method WriteContact(c: Contact) returns (fp: string)
    requires Complete(c)
    ensures fp == Row(Values(c))
  {
    hide FieldMappings, Written, Row, Values, Quoted, FindHeading;
    var w, colcount := Written(), 0;
    ghost var v := Values(c);
    fp := "";
    RowOfNone();
    for k := 0 to COLUMNS
      invariant colcount == k && fp == Row(v[..k])
    {
      HasHeading(k);
      var written;
      fp, written := CondWriteval(fp, w[k], c[w[k]], colcount);
      if written {
        colcount := colcount + 1;
      }
      assert v[..k + 1] == v[..k] + [v[k]];
      RowGrows(v[..k], v[k]);
    }
    assert v[..COLUMNS] == v;
  }

  lemma CompleteTail(contacts: seq<Contact>)
    requires contacts != [] && AllComplete(contacts)
    ensures Complete(contacts[0]) && AllComplete(contacts[1..])
  {
    hide Complete;
  }

  lemma RowsStep(c: Contact, contacts: seq<Contact>)
    requires Complete(c) && AllComplete(contacts)
    ensures AllComplete([c] + contacts) && Rows([c] + contacts) == Row(Values(c)) + [LF] + Rows(contacts)
  {
    hide Written, Values, Row, Complete;
    assert ([c] + contacts)[1..] == contacts;
  }

  lemma RowsOfNone()
    ensures AllComplete([]) && Rows([]) == []
  {}

  lemma Joined(a: string, b: string, c: string, d: string)
    ensures a + (b + c + d) == a + b + c + d
  {}

  lemma {:induction false} RowsGrow(contacts: seq<Contact>, c: Contact)
    requires Complete(c) && AllComplete(contacts)
    ensures AllComplete(contacts + [c]) && Rows(contacts + [c]) == Rows(contacts) + Row(Values(c)) + [LF]
    decreases |contacts|
  {
    hide *;
    if contacts == [] {
      RowsOfNone();
      RowsStep(c, []);
      assert contacts + [c] == [c] + [];
      assert [] + Row(Values(c)) + [LF] == Row(Values(c)) + [LF] + [];
    } else {
      var a, rest := contacts[0], contacts[1..];
      CompleteTail(contacts);
      RowsGrow(rest, c);
      RowsStep(a, rest);
      RowsStep(a, rest + [c]);
      assert contacts == [a] + rest;
      assert contacts + [c] == [a] + (rest + [c]);
      Joined(Row(Values(a)) + [LF], Rows(rest), Row(Values(c)), [LF]);
    }
  }

  // dump_db.
  method Dump(contacts: seq<Contact>) returns (fp: string)
    requires AllComplete(contacts)
    ensures fp == Dumped(contacts)
  {
    hide Written, Values, Row, Headings, Complete;
    fp := WriteHeader();
    fp := fp + [LF];
    for i := 0 to |contacts|
      invariant fp == Row(Headings()) + [LF] + Rows(contacts[..i])
    {
      var row := WriteContact(contacts[i]);
      assert contacts[..i + 1] == contacts[..i] + [contacts[i]];
      RowsGrow(contacts[..i], contacts[i]);
      fp := fp + row + [LF];
    }
    assert contacts[..|contacts|] == contacts;
  }

  // ---------- reading the header ----------

  // What the fields buffer gets: commas become terminators, quotes are dropped.
  function Packed(s: string): (r: string)
    ensures |r| <= |s|
  {
    if s == [] then []
    else if s[0] == COMMA then [NUL] + Packed(s[1..])
    else if s[0] == QUOTE then Packed(s[1..])
    else [s[0]] + Packed(s[1..])
  }

  function Commas(s: string): nat {
    if s == [] then 0 else Commas(s[1..]) + if s[0] == COMMA then 1 else 0
  }

  // The part of a line the header loop looks at.
  function Head(line: string): (s: string)
    ensures s <= line && (forall i :: 0 <= i < |s| ==> s[i] != NUL && s[i] != CR && s[i] != LF)
    ensures |s| < |line| ==> line[|s|] in [NUL, CR, LF]
  {
    if line == [] || line[0] in [NUL, CR, LF] then [] else [line[0]] + Head(line[1..])
  }

  // The buffer has at least k + 1 terminated strings.
  predicate Named(buffer: string, k: nat)
    decreases k
  {
    var n := |CString(buffer)|;
    n < |buffer| && (k == 0 || Named(buffer[n + 1..], k - 1))
  }

  function NameAt(buffer: string, k: nat): string
    requires Named(buffer, k)
    decreases k
  {
    var s := CString(buffer);
    if k == 0 then s else NameAt(buffer[|s| + 1..], k - 1)
  }

  lemma {:induction false} CStringIs(s: string, z: string)
    requires NUL !in s && (z == [] || z[0] == NUL)
    ensures CString(s + z) == s
  {
    if s == [] {
      assert s + z == z;
    } else {
      assert (s + z)[1..] == s[1..] + z;
      CStringIs(s[1..], z);
    }
  }

  lemma {:induction false} CellsCounted(tmp: string, s: string)
    ensures |CellsFrom(tmp, s)| == Commas(s) + 1
    decreases |s|
  {
    if s != [] {
      CellsCounted(if s[0] == COMMA then [] else if s[0] == QUOTE then tmp else tmp + [s[0]], s[1..]);
    }
  }

  // The cells of the header line are the strings of the buffer.
  lemma {:induction false} PackedCells(tmp: string, s: string, z: string, k: nat)
    requires NUL !in tmp && NUL !in s && z != [] && z[0] == NUL && k < |CellsFrom(tmp, s)|
    ensures var all := tmp + Packed(s) + z; Named(all, k) && NameAt(all, k) == CellsFrom(tmp, s)[k]
    decreases |s|
  {
    hide CString, Named, NameAt;
    var all := tmp + Packed(s) + z;
    if s == [] {
      assert all == tmp + z;
      NameFirst(tmp, z, k);
    } else if s[0] == COMMA {
      var rest := Packed(s[1..]) + z;
      assert all == tmp + ([NUL] + rest);
      assert [] + Packed(s[1..]) + z == rest;
      if k > 0 {
        PackedCells([], s[1..], z, k - 1);
      }
      NameFirst(tmp, [NUL] + rest, k);
      assert ([NUL] + rest)[1..] == rest;
    } else if s[0] == QUOTE {
      PackedCells(tmp, s[1..], z, k);
    } else {
      assert all == tmp + [s[0]] + Packed(s[1..]) + z;
      PackedCells(tmp + [s[0]], s[1..], z, k);
    }
  }

  lemma NameFirst(s: string, z: string, k: nat)
    requires NUL !in s && z != [] && z[0] == NUL && (k > 0 ==> Named(z[1..], k - 1))
    ensures Named(s + z, k) && NameAt(s + z, k) == if k == 0 then s else NameAt(z[1..], k - 1)
  {
    hide CString;
    CStringIs(s, z);
    assert (s + z)[|s| + 1..] == z[1..];
  }

  lemma {:induction false} PackedGrows(s: string, c: char)
    ensures Packed(s + [c]) == Packed(s) + (if c == COMMA then [NUL] else if c == QUOTE then [] else [c])
    ensures Commas(s + [c]) == Commas(s) + if c == COMMA then 1 else 0
  {
    if s == [] {
      assert s + [c] == [c];
      assert [c][1..] == [];
    } else {
      assert (s + [c])[1..] == s[1..] + [c];
      PackedGrows(s[1..], c);
    }
  }

  lemma {:induction false} PackedShort(s: string, t: string)
    requires s <= t
    ensures |Packed(s)| <= |Packed(t)|
  {
    if s != [] {
      PackedShort(s[1..], t[1..]);
    }
  }

  // The buffer holds these names.
  ghost predicate HasNames(buffer: string, names: seq<string>) {
    forall k: nat :: k < |names| ==> Named(buffer, k) && NameAt(buffer, k) == names[k]
  }

  lemma PackedHasNames(s: string, buffer: string)
    requires NUL !in s && |Packed(s)| < |buffer| && buffer[|Packed(s)|] == NUL
    requires forall i :: 0 <= i < |Packed(s)| ==> buffer[i] == Packed(s)[i]
    ensures |Cells(s)| == Commas(s) + 1 && HasNames(buffer, Cells(s))
  {
    var z := buffer[|Packed(s)|..];
    assert buffer == [] + Packed(s) + z;
    CellsCounted([], s);
    forall k: nat | k < |Cells(s)| ensures Named(buffer, k) && NameAt(buffer, k) == Cells(s)[k] {
      PackedCells([], s, z, k);
    }
  }

  lemma PackedOneMore(s: string, i: nat)
    requires i < |s|
    ensures Packed(s[..i + 1]) ==
      Packed(s[..i]) + (if s[i] == COMMA then [NUL] else if s[i] == QUOTE then [] else [s[i]])
    ensures Commas(s[..i + 1]) == Commas(s[..i]) + if s[i] == COMMA then 1 else 0
    ensures |Packed(s[..i + 1])| <= |Packed(s)|
  {
    assert s[..i + 1] == s[..i] + [s[i]];
    PackedGrows(s[..i], s[i]);
    PackedShort(s[..i + 1], s);
  }

  // The header loop: the buffer holds the names back to back, and the count is one short of them.
  method ParseHeader(line: string) returns (fields: array<char>, fieldcount: nat)
    requires |Packed(Head(line))| < FIELDS
    ensures fresh(fields) && fields.Length == FIELDS
    ensures fieldcount + 1 == |Cells(Head(line))| && HasNames(fields[..], Cells(Head(line)))
  {
    hide *;
    fields := new char[FIELDS](_ => NUL);
    fieldcount := 0;
    ghost var head := Head(line);
    var column: nat, ptemp: nat := 0, 0;
    PackedNone();
    while ptemp < |line| && line[ptemp] != NUL && line[ptemp] != CR && line[ptemp] != LF
      invariant ptemp <= |head| && column == |Packed(head[..ptemp])| < FIELDS
      invariant fieldcount == Commas(head[..ptemp])
      invariant forall i :: 0 <= i < column ==> fields[i] == Packed(head[..ptemp])[i]
      invariant forall i :: column <= i < FIELDS ==> fields[i] == NUL
    {
      PackedOneMore(head, ptemp);
      if line[ptemp] == COMMA {
        fieldcount := fieldcount + 1;
        column := column + 1;
      } else if line[ptemp] != QUOTE {
        fields[column] := line[ptemp];
        column := column + 1;
      }
      ptemp := ptemp + 1;
    }
    assert head[..ptemp] == head;
    PackedHasNames(head, fields[..]);
  }

  lemma PackedNone()
    ensures Packed([]) == [] && Commas([]) == 0
  {}

  method StrLen(buffer: array<char>, start: nat) returns (n: nat)
    requires start <= buffer.Length
    ensures n == |CString(buffer[start..])|
    ensures start + n <= buffer.Length && buffer[start..start + n] == CString(buffer[start..])
  {
    n := 0;
    while start + n < buffer.Length && buffer[start + n] != NUL
      invariant start + n <= buffer.Length && forall i :: start <= i < start + n ==> buffer[i] != NUL
    {
      n := n + 1;
    }
    var s, z := buffer[start..start + n], buffer[start + n..];
    assert s + z == buffer[start..];
    CStringIs(s, z);
  }

  lemma NameStep(buffer: string, column: nat, k: nat)
    requires column <= |buffer| && Named(buffer[column..], k)
    ensures var n := |CString(buffer[column..])|;
      && column + n < |buffer|
      && (k == 0 ==> NameAt(buffer[column..], k) == CString(buffer[column..]))
      && (k > 0 ==> Named(buffer[column + n + 1..], k - 1))
      && (k > 0 ==> NameAt(buffer[column..], k) == NameAt(buffer[column + n + 1..], k - 1))
  {}

  // getfieldname: None for the null pointer.
  method GetFieldName(fields: array<char>, fieldnumber: nat, maxfields: nat) returns (r: Option<string>)
    requires fieldnumber < maxfields ==> Named(fields[..], fieldnumber)
    ensures r == if fieldnumber < maxfields then Some(NameAt(fields[..], fieldnumber)) else None
  {
    hide CString, Named, NameAt;
    if fieldnumber + 1 > maxfields {
      return None;
    }
    var column: nat := 0;
    assert fields[0..] == fields[..];
    for i := 0 to fieldnumber
      invariant column <= fields.Length && Named(fields[column..], fieldnumber - i)
      invariant NameAt(fields[column..], fieldnumber - i) == NameAt(fields[..], fieldnumber)
    {
      var n := StrLen(fields, column);
      NameStep(fields[..], column, fieldnumber - i);
      assert fields[..][column..] == fields[column..] && fields[..][column + n + 1..] == fields[column + n + 1..];
      column := column + n + 1;
    }
    NameStep(fields[column..], 0, 0);
    assert fields[column..][0..] == fields[column..];
    var n := StrLen(fields, column);
    r := Some(fields[column..column + n]);
  }

  // ---------- reading a row ----------

  function Blank(): Contact {
    map f | f in Written() :: ""
  }

  // snprintf into a field, which is told one byte less than the field has.
  function Clip(field: string, value: string): (r: string)
    ensures r <= value && |r| <= Room(field) - 2
  {
    if |value| <= Room(field) - 2 then value else value[..Room(field) - 2]
  }

  // The chain of comparisons with the field names.
  function Store(c: Contact, name: string, value: string): Contact {
    match Find(name, FieldMappings())
    case Some(f) => if f in Written() then c[f := Clip(f, value)] else c
    case None => c
  }

  // Each comma stores the cell before it, so the last cell is never stored.
  function Filled(c: Contact, names: seq<string>, cells: seq<string>): Contact
    requires 0 < |cells| <= |names|
    decreases |cells|
  {
    if |cells| == 1 then c else Filled(Store(c, names[0], cells[0]), names[1..], cells[1..])
  }

  function Chomped(s: string): (r: string)
    ensures r <= s && (r != [] ==> r[|r| - 1] != LF && r[|r| - 1] != CR)
  {
    if s != [] && (s[|s| - 1] == LF || s[|s| - 1] == CR) then Chomped(s[..|s| - 1]) else s
  }

  predicate CellsFit(names: seq<string>, cells: seq<string>) {
    |cells| <= |names| && forall i :: 0 <= i < |cells| ==> |cells[i]| < TMPVAL
  }

  lemma {:induction false} FirstCellGrows(tmp: string, s: string)
    ensures tmp <= CellsFrom(tmp, s)[0]
    decreases |s|
  {
    if s != [] && s[0] != COMMA {
      FirstCellGrows(if s[0] == QUOTE then tmp else tmp + [s[0]], s[1..]);
    }
  }

  method StoreCell(c: Contact, fields: array<char>, col: nat, fieldcount: nat, tmpval: array<char>, ghost tmp: string)
    returns (r: Contact)
    requires col < fieldcount && Named(fields[..], col) && |tmp| < tmpval.Length && NUL !in tmp
    requires tmpval[..|tmp|] == tmp && tmpval[|tmp|] == NUL
    ensures r == Store(c, NameAt(fields[..], col), tmp)
  {
    hide FieldMappings, Find, Written;
    r := c;
    var name := GetFieldName(fields, col, fieldcount);
    var rmap := RFieldDefined(name.value);
    var n := StrLen(tmpval, 0);
    assert tmpval[0..] == tmp + tmpval[|tmp|..];
    CStringIs(tmp, tmpval[|tmp|..]);
    var value := tmpval[0..n];
    if rmap.Some? && rmap.value in Written() {
      var room := Room(rmap.value) - 2;
      r := c[rmap.value := if n <= room then value else value[..room]];
    }
  }

  // The loop over one line of values.
  method ParseRow(line: string, fields: array<char>, fieldcount: nat, ghost names: seq<string>) returns (c: Contact)
    requires NUL !in line
    requires |names| == fieldcount + 1 && HasNames(fields[..], names)
    requires CellsFit(names, Cells(line))
    ensures c == Filled(Blank(), names, Cells(line))
  {
    hide NameAt, Store, Blank, Written;
    c := Blank();
    var tmpval := new char[TMPVAL](_ => NUL);
    var col: nat, column: nat := 0, 0;
    ghost var tmp: string, total := [], Filled(c, names, Cells(line));
    assert line[0..] == line && names[0..] == names;
    for ptemp := 0 to |line|
      invariant column == |tmp| < TMPVAL && NUL !in tmp && tmpval[..column] == tmp
      invariant forall i :: column <= i < TMPVAL ==> tmpval[i] == NUL
      invariant col <= fieldcount && CellsFit(names[col..], CellsFrom(tmp, line[ptemp..]))
      invariant total == Filled(c, names[col..], CellsFrom(tmp, line[ptemp..]))
    {
      ghost var s := line[ptemp..];
      assert s[0] == line[ptemp] && s[1..] == line[ptemp + 1..];
      if line[ptemp] == COMMA {
        StepCell(names, col, tmp, s);
        c := StoreCell(c, fields, col, fieldcount, tmpval, tmp);
        forall i | 0 <= i < TMPVAL {
          tmpval[i] := NUL;
        }
        tmp := [];
        column := 0;
        col := col + 1;
      } else if line[ptemp] != QUOTE {
        FirstCellGrows(tmp + [line[ptemp]], s[1..]);
        tmpval[column] := line[ptemp];
        tmp := tmp + [line[ptemp]];
        column := column + 1;
      }
    }
    assert line[|line|..] == [];
  }

  lemma StepCell(names: seq<string>, col: nat, tmp: string, s: string)
    requires s != [] && s[0] == COMMA && col < |names| && CellsFit(names[col..], CellsFrom(tmp, s))
    ensures col + 1 < |names| && names[col..][0] == names[col] && names[col..][1..] == names[col + 1..]
    ensures CellsFrom(tmp, s)[0] == tmp && CellsFrom(tmp, s)[1..] == CellsFrom([], s[1..])
    ensures CellsFit(names[col + 1..], CellsFrom([], s[1..]))
  {}

  // ---------- the whole file ----------

  // Length of what fgets takes.
  function LineEnd(s: string, max: nat): (n: nat)
    ensures n <= |s| && n <= max && (s != [] && max > 0 ==> n > 0)
  {
    if s == [] || max == 0 then 0 else if s[0] == LF then 1 else 1 + LineEnd(s[1..], max - 1)
  }

  // The cells the row loop sees of a line.
  function RowCells(line: string): (cells: seq<string>)
    ensures |cells| > 0
  {
    Cells(Chomped(CString(line)))
  }

  predicate RowsFit(names: seq<string>, file: string)
    decreases |file|
  {
    file == [] ||
    var n := LineEnd(file, LINE);
    CellsFit(names, RowCells(file[..n])) && RowsFit(names, file[n..])
  }

  function RestoredRows(names: seq<string>, file: string): seq<Contact>
    requires RowsFit(names, file)
    decreases |file|
  {
    if file == [] then []
    else
      var n := LineEnd(file, LINE);
      [Filled(Blank(), names, RowCells(file[..n]))] + RestoredRows(names, file[n..])
  }

  // The buffers of restore_db hold the names, and each value, of this file; no row has more columns than the header.
  predicate FileFits(file: string) {
    var n := LineEnd(file, LINE);
    var head := Head(file[..n]);
    |Packed(head)| < FIELDS && RowsFit(Cells(head), file[n..])
  }

  function Restored(file: string): Option<seq<Contact>>
    requires FileFits(file)
  {
    if file == [] then None
    else
      var n := LineEnd(file, LINE);
      Some(RestoredRows(Cells(Head(file[..n])), file[n..]))
  }

  // The limits in numbers.
  lemma LimitsAre(name: string, v: string, s: string)
    ensures CellsFit([name], [v]) <==> |v| <= 127
    ensures LineEnd(s, LINE) <= 12286 && (|s| >= 12286 && LF !in s[..12286] ==> LineEnd(s, LINE) == 12286)
    ensures FileFits(s) ==> |Packed(Head(s[..LineEnd(s, LINE)]))| <= 2047
  {
    assert [v][0] == v;
    assert CellsFit([name], [v]) ==> |[v][0]| < TMPVAL;
    if |s| >= 12286 && LF !in s[..12286] {
      CutAt(s, LINE);
    }
  }

  lemma {:induction false} CutAt(s: string, max: nat)
    requires |s| >= max && LF !in s[..max]
    ensures LineEnd(s, max) == max
  {
    if max > 0 {
      assert s[0] == s[..max][0];
      assert s[..max][1..] == s[1..][..max - 1];
      assert forall c :: c in s[..max][1..] ==> c in s[..max];
      CutAt(s[1..], max - 1);
    }
  }

  method Fgets(file: string) returns (line: string, rest: string)
    ensures var n := LineEnd(file, LINE); line == file[..n] && rest == file[n..]
  {
    var n: nat := 0;
    assert file[0..] == file;
    while n < |file| && n < LINE
      invariant n <= |file| && n <= LINE
      invariant LineEnd(file, LINE) == n + LineEnd(file[n..], LINE - n)
    {
      assert file[n..][0] == file[n] && file[n..][1..] == file[n + 1..];
      n := n + 1;
      if file[n - 1] == LF {
        return file[..n], file[n..];
      }
    }
    line, rest := file[..n], file[n..];
  }

  method Chomp(line: string) returns (r: string)
    ensures r == Chomped(CString(line))
  {
    hide CString;
    r := CString(line);
    while r != [] && (r[|r| - 1] == LF || r[|r| - 1] == CR)
      invariant Chomped(r) == Chomped(CString(line))
    {
      r := r[..|r| - 1];
    }
  }

  // The reading half of restore_db.
  method Restore(file: string) returns (r: Option<seq<Contact>>)
    requires FileFits(file)
    ensures r == Restored(file)
  {
    hide Filled, RowCells, Head, Packed, Cells, CellsFit, HasNames, LineEnd, Chomped, CString;
    if file == [] {
      return None;
    }
    var line, rest := Fgets(file);
    var fields, fieldcount := ParseHeader(line);
    ghost var names := Cells(Head(line));
    ghost var body := rest;
    var contacts := [];
    while rest != []
      invariant HasNames(fields[..], names) && RowsFit(names, rest)
      invariant RestoredRows(names, body) == contacts + RestoredRows(names, rest)
      decreases |rest|
    {
      var contact;
      line, rest := Fgets(rest);
      contact := RestoreRow(line, fields, fieldcount, names);
      contacts := contacts + [contact];
    }
    assert contacts + [] == contacts;
    r := Some(contacts);
  }

  method RestoreRow(line: string, fields: array<char>, fieldcount: nat, ghost names: seq<string>) returns (c: Contact)
    requires |names| == fieldcount + 1 && HasNames(fields[..], names) && CellsFit(names, RowCells(line))
    ensures c == Filled(Blank(), names, RowCells(line))
  {
    var text := Chomp(line);
    c := ParseRow(text, fields, fieldcount, names);
  }

  // ---------- the round trip ----------

  // What comes back: every column without its quotes and clipped to its field, but nothing of the last.
  function Returned(c: Contact): Contact
    requires Complete(c)
  {
    map f | f in Written() :: if f == LAST then "" else Clip(f, Unquoted(c[f]))
  }

  // The contact after k columns.
  ghost function Partial(c: Contact, k: nat): Contact
    requires Complete(c) && k <= COLUMNS
  {
    map f | f in Written() :: if f in Written()[..k] then Clip(f, Unquoted(c[f])) else ""
  }

  lemma PartialGrows(c: Contact, k: nat)
    requires Complete(c) && k < COLUMNS
    ensures Partial(c, k + 1) == Store(Partial(c, k), Headings()[k], UnquotedAll(Values(c))[k])
  {
    hide Written, FieldMappings, Find, Clip, Headings, Values, Unquoted;
    HeadingFindsField(k);
    assert Written()[..k + 1] == Written()[..k] + [Written()[k]];
    assert Written()[k] in Written();
  }

  lemma PartialEnds(c: Contact)
    requires Complete(c)
    ensures Partial(c, COLUMNS - 1) == Returned(c)
  {
    hide Written, Clip;
    var w := Written();
    assert w == w[..COLUMNS - 1] + [LAST];
    if LAST in w[..COLUMNS - 1] {
      var j: nat :| j < COLUMNS - 1 && w[..COLUMNS - 1][j] == LAST;
      FieldsDiffer(j, COLUMNS - 1);
      assert false;
    }
  }

  lemma PartialStarts(c: Contact)
    requires Complete(c)
    ensures Partial(c, 0) == Blank()
  {}

  lemma {:induction false} FilledFrom(c: Contact, k: nat)
    requires Complete(c) && k < COLUMNS
    ensures Filled(Partial(c, k), Headings()[k..], UnquotedAll(Values(c))[k..]) == Returned(c)
    decreases COLUMNS - k
  {
    hide Written, Complete, Values, Headings, Store, Partial, Returned, UnquotedAll;
    if k == COLUMNS - 1 {
      PartialEnds(c);
    } else {
      PartialGrows(c, k);
      assert Headings()[k..][1..] == Headings()[k + 1..];
      assert UnquotedAll(Values(c))[k..][1..] == UnquotedAll(Values(c))[k + 1..];
      FilledFrom(c, k + 1);
    }
  }

  lemma {:induction false} LineIsTaken(s: string, more: string, max: nat)
    requires LF !in s && |s| < max
    ensures LineEnd(s + [LF] + more, max) == |s| + 1
  {
    var all := s + [LF] + more;
    if s == [] {
      assert all[0] == LF;
    } else {
      assert all[1..] == s[1..] + [LF] + more;
      LineIsTaken(s[1..], more, max - 1);
    }
  }

  lemma {:induction false} RowLength(values: seq<string>)
    requires forall i :: 0 <= i < |values| ==> |values[i]| <= 50
    ensures |Row(values)| <= 53 * |values|
  {
    if |values| > 1 {
      RowLength(values[1..]);
    }
  }

  // A value that is one line.
  predicate OneLine(s: string) {
    LF !in s && NUL !in s
  }

  lemma {:induction false} RowShape(values: seq<string>)
    requires values != [] && forall i :: 0 <= i < |values| ==> OneLine(values[i])
    ensures var s := Row(values); s != [] && s[|s| - 1] == QUOTE && OneLine(s)
    decreases |values|
  {
    var s, v := Row(values), Quoted(values[0]);
    assert OneLine(v) && v[|v| - 1] == QUOTE;
    if |values| > 1 {
      var rest := Row(values[1..]);
      RowShape(values[1..]);
      assert s == v + [COMMA] + rest && s[|s| - 1] == rest[|rest| - 1];
    }
  }

  lemma {:induction false} RowNoReturns(values: seq<string>)
    requires forall i :: 0 <= i < |values| ==> CR !in values[i]
    ensures CR !in Row(values)
  {
    if |values| > 1 {
      RowNoReturns(values[1..]);
    }
  }

  // What a C record can hold.
  ghost predicate IsRecord(c: Contact) {
    Complete(c) && forall f :: f in c ==> |c[f]| < Room(f) && NUL !in c[f]
  }

  // No comma or newline among the values.
  ghost predicate AllFlat(c: Contact) {
    forall f :: f in c ==> Flat(c[f])
  }

  lemma ValuesAre(c: Contact, k: nat)
    requires Complete(c) && k < COLUMNS
    ensures Written()[k] in c && Values(c)[k] == c[Written()[k]]
  {
    hide Written;
    assert Written()[k] in Written();
  }

  ghost predicate ShortLines(values: seq<string>) {
    |values| == COLUMNS && forall i :: 0 <= i < |values| ==> OneLine(values[i]) && |values[i]| <= 50
  }

  lemma LineComesBack(values: seq<string>, more: string)
    requires ShortLines(values)
    ensures var file := Row(values) + [LF] + more;
      var n := LineEnd(file, LINE);
      file[..n] == Row(values) + [LF] && file[n..] == more
  {
    RowShape(values);
    RowLength(values);
    hide Row, LineEnd;
    LineIsTaken(Row(values), more, LINE);
  }

  lemma RowComesBack(values: seq<string>)
    requires ShortLines(values)
    ensures RowCells(Row(values) + [LF]) == Cells(Row(values))
  {
    RowShape(values);
    hide Row, Cells, Chomped, CString;
    ChompsLine(Row(values));
  }

  lemma ChompsLine(s: string)
    requires s != [] && s[|s| - 1] == QUOTE && NUL !in s
    ensures Chomped(CString(s + [LF])) == s
  {
    var line := s + [LF];
    assert line + [] == line;
    CStringIs(line, []);
    hide CString;
    ChompOne(s, LF);
    assert Chomped(s) == s;
  }

  lemma ChompOne(s: string, c: char)
    requires c == LF || c == CR
    ensures Chomped(s + [c]) == Chomped(s)
  {
    assert (s + [c])[..|s + [c]| - 1] == s;
  }

  lemma HeaderComesBack()
    ensures var s := Row(Headings()); Head(s + [LF]) == s && Cells(s) == Headings() && |Packed(s)| < FIELDS
    ensures ShortLines(Headings())
  {
    hide FieldMappings, Headings;
    forall k: nat | k < COLUMNS ensures Simple(Headings()[k]) {
      HeadingSimple(k);
    }
    HeaderCells(Headings());
    RowShape(Headings());
    RowLength(Headings());
    RowNoReturns(Headings());
    hide Row, Cells, Packed, Simple;
    HeadStops(Row(Headings()));
  }

  lemma SimpleStays(s: string)
    requires Simple(s)
    ensures Flat(s) && Unquoted(s) == s && OneLine(s)
  {
    hide Unquoted;
    QuotesDropped(s);
  }

  lemma HeaderCells(h: seq<string>)
    requires h != [] && forall k :: 0 <= k < |h| ==> Simple(h[k])
    ensures Cells(Row(h)) == h
  {
    hide *;
    forall k | 0 <= k < |h| ensures Flat(h[k]) && Unquoted(h[k]) == h[k] {
      SimpleStays(h[k]);
    }
    CellsOfRow(h);
    assert UnquotedAll(h) == h;
  }

  lemma {:induction false} HeadStops(s: string)
    requires LF !in s && CR !in s && NUL !in s
    ensures Head(s + [LF]) == s
  {
    if s != [] {
      assert (s + [LF])[1..] == s[1..] + [LF];
      HeadStops(s[1..]);
    }
  }

  lemma ShortValues(c: Contact)
    requires IsRecord(c) && forall f :: f in c ==> LF !in c[f]
    ensures ShortLines(Values(c))
  {
    hide Written, Values, Room;
    forall k: nat | k < COLUMNS ensures OneLine(Values(c)[k]) && |Values(c)[k]| <= 50 {
      ValuesAre(c, k);
    }
  }

  // The line that fgets takes, and the cells that the row loop sees in it.
  lemma ContactLine(c: Contact, more: string)
    requires IsRecord(c) && forall f :: f in c ==> LF !in c[f]
    ensures var file := Row(Values(c)) + [LF] + more;
      var n := LineEnd(file, LINE);
      file[n..] == more && RowCells(file[..n]) == Cells(Row(Values(c)))
  {
    ShortValues(c);
    hide Row, Values, LineEnd, RowCells, Cells;
    LineComesBack(Values(c), more);
    RowComesBack(Values(c));
  }

  lemma ContactComesBack(c: Contact, more: string)
    requires IsRecord(c) && AllFlat(c)
    ensures var file := Row(Values(c)) + [LF] + more;
      var n := LineEnd(file, LINE);
      && file[n..] == more && CellsFit(Headings(), RowCells(file[..n]))
      && Filled(Blank(), Headings(), RowCells(file[..n])) == Returned(c)
  {
    FlatHasNoBreaks(c);
    ShortValues(c);
    hide Row, Values, Headings, Flat, LineEnd, RowCells, Cells, Filled, Returned, Blank, Written, Unquoted;
    var v := Values(c);
    ContactLine(c, more);
    forall k: nat | k < COLUMNS ensures Flat(v[k]) {
      ValuesAre(c, k);
    }
    CellsOfRow(v);
    PartialStarts(c);
    FilledFrom(c, 0);
    assert Headings()[0..] == Headings() && UnquotedAll(v)[0..] == UnquotedAll(v);
  }

  lemma FlatHasNoBreaks(c: Contact)
    requires AllFlat(c)
    ensures forall f :: f in c ==> LF !in c[f]
  {}

  lemma {:induction false} RowsComeBack(contacts: seq<Contact>)
    requires AllComplete(contacts) && forall i :: 0 <= i < |contacts| ==> IsRecord(contacts[i]) && AllFlat(contacts[i])
    ensures RowsFit(Headings(), Rows(contacts))
    ensures |RestoredRows(Headings(), Rows(contacts))| == |contacts|
    ensures forall i :: 0 <= i < |contacts| ==> RestoredRows(Headings(), Rows(contacts))[i] == Returned(contacts[i])
  {
    hide Row, Values, Headings, LineEnd, RowCells, Filled, Returned, Blank, Complete, IsRecord, AllFlat, CellsFit;
    if contacts != [] {
      ContactComesBack(contacts[0], Rows(contacts[1..]));
      RowsComeBack(contacts[1..]);
    }
  }

  // The header line of a dump is taken and read, whatever follows.
  lemma DumpHeader(contacts: seq<Contact>)
    requires AllComplete(contacts)
    ensures Dumped(contacts) != []
    ensures FileFits(Dumped(contacts)) <==> RowsFit(Headings(), Rows(contacts))
    ensures FileFits(Dumped(contacts)) ==>
      Restored(Dumped(contacts)) == Some(RestoredRows(Headings(), Rows(contacts)))
  {
    hide Row, Headings, LineEnd, RestoredRows, RowsFit, Rows, Packed, Head, Cells, ShortLines, Complete;
    HeaderComesBack();
    LineComesBack(Headings(), Rows(contacts));
  }

  // Restoring a dump gives back every column of every contact, without its quotes and clipped to its field,
  // except the last column.
  lemma RoundTrip(contacts: seq<Contact>)
    requires AllComplete(contacts) && forall i :: 0 <= i < |contacts| ==> IsRecord(contacts[i]) && AllFlat(contacts[i])
    ensures FileFits(Dumped(contacts))
    ensures Restored(Dumped(contacts)) ==
      Some(seq(|contacts|, i requires 0 <= i < |contacts| => Returned(contacts[i])))
  {
    hide Headings, Returned, RestoredRows, RowsFit, Rows, Dumped, FileFits, Restored, Complete, IsRecord, AllFlat;
    DumpHeader(contacts);
    RowsComeBack(contacts);
    var got := RestoredRows(Headings(), Rows(contacts));
    assert got == seq(|contacts|, i requires 0 <= i < |contacts| => Returned(contacts[i]));
  }

  // ---------- exactly when ----------

  function Breaks(s: string): nat {
    if s == [] then 0 else Breaks(s[1..]) + if s[0] == LF then 1 else 0
  }

  lemma {:induction false} BreaksAppend(a: string, b: string)
    ensures Breaks(a + b) == Breaks(a) + Breaks(b)
  {
    if a == [] {
      assert a + b == b;
    } else {
      assert (a + b)[1..] == a[1..] + b;
      BreaksAppend(a[1..], b);
    }
  }

  lemma {:induction false} BreaksFound(s: string)
    ensures Breaks(s) > 0 <==> LF in s
  {
    if s != [] {
      BreaksFound(s[1..]);
      assert s == [s[0]] + s[1..];
    }
  }

  // What fgets takes holds at most one newline.
  lemma {:induction false} OneBreak(s: string, max: nat)
    ensures Breaks(s) <= Breaks(s[LineEnd(s, max)..]) + 1
  {
    if s != [] && max > 0 && s[0] != LF {
      OneBreak(s[1..], max - 1);
      assert s[LineEnd(s, max)..] == s[1..][LineEnd(s[1..], max - 1)..];
    } else if s == [] || max == 0 {
      assert s[0..] == s;
    }
  }

  // A file gives at least one row for each newline.
  lemma {:induction false} RowPerBreak(names: seq<string>, file: string)
    requires RowsFit(names, file)
    ensures |RestoredRows(names, file)| >= Breaks(file)
    decreases |file|
  {
    if file != [] {
      hide LineEnd, RowCells, CellsFit, Filled, Blank, Breaks;
      var n := LineEnd(file, LINE);
      OneBreak(file, LINE);
      RowPerBreak(names, file[n..]);
    }
  }

  lemma {:induction false} ValueInRow(values: seq<string>, k: nat, c: char)
    requires k < |values| && c in values[k]
    ensures c in Row(values)
    decreases |values|
  {
    if k > 0 {
      ValueInRow(values[1..], k - 1, c);
    } else {
      assert c in Quoted(values[0]);
    }
  }

  // A dump has a newline for each contact, and one more for each newline among the values.
  lemma {:induction false} BreaksOfRows(contacts: seq<Contact>, i: nat, f: string)
    requires AllComplete(contacts)
    requires i < |contacts| && f in contacts[i] && LF in contacts[i][f]
    ensures Breaks(Rows(contacts)) > |contacts|
    decreases |contacts|
  {
    hide *;
    CompleteTail(contacts);
    BreaksStep(contacts);
    if i == 0 {
      BreakInRow(contacts[0], f);
      BreakPerContact(contacts[1..]);
    } else {
      BreaksOfRows(contacts[1..], i - 1, f);
    }
  }

  lemma BreakInRow(c: Contact, f: string)
    requires Complete(c) && f in c && LF in c[f]
    ensures Breaks(Row(Values(c))) > 0
  {
    hide Written, Row, Breaks;
    var k: nat :| k < COLUMNS && Written()[k] == f;
    ValuesAre(c, k);
    ValueInRow(Values(c), k, LF);
    BreaksFound(Row(Values(c)));
  }

  lemma BreaksOfLine(row: string, rest: string)
    ensures Breaks(row + [LF] + rest) == Breaks(row) + 1 + Breaks(rest)
  {
    assert Breaks([LF]) == 1 by { assert [LF][1..] == []; }
    hide Breaks;
    BreaksAppend(row + [LF], rest);
    BreaksAppend(row, [LF]);
  }

  lemma BreaksStep(contacts: seq<Contact>)
    requires contacts != [] && AllComplete(contacts)
    ensures Breaks(Rows(contacts)) == Breaks(Row(Values(contacts[0]))) + 1 + Breaks(Rows(contacts[1..]))
  {
    hide Row, Values, Complete, Breaks;
    BreaksOfLine(Row(Values(contacts[0])), Rows(contacts[1..]));
  }

  lemma {:induction false} BreakPerContact(contacts: seq<Contact>)
    requires AllComplete(contacts)
    ensures Breaks(Rows(contacts)) >= |contacts|
    decreases |contacts|
  {
    if contacts != [] {
      hide *;
      CompleteTail(contacts);
      BreaksStep(contacts);
      BreakPerContact(contacts[1..]);
    }
  }

  lemma {:induction false} CommasAppend(a: string, b: string)
    ensures Commas(a + b) == Commas(a) + Commas(b)
  {
    if a == [] {
      assert a + b == b;
    } else {
      assert (a + b)[1..] == a[1..] + b;
      CommasAppend(a[1..], b);
    }
  }

  lemma {:induction false} CommasFound(s: string)
    ensures Commas(s) > 0 <==> COMMA in s
  {
    if s != [] {
      CommasFound(s[1..]);
      assert s == [s[0]] + s[1..];
    }
  }

  lemma CommasOfQuoted(v: string)
    ensures Commas(Quoted(v)) == Commas(v)
  {
    assert [QUOTE][1..] == [] && Commas([QUOTE]) == 0;
    hide Commas;
    CommasAppend([QUOTE] + v, [QUOTE]);
    CommasAppend([QUOTE], v);
  }

  // A row has a comma between any two values, and one more for each comma among them.
  lemma {:induction false} CommasOfRow(values: seq<string>)
    requires values != []
    ensures Commas(Row(values)) >= |values| - 1
    ensures (exists k :: 0 <= k < |values| && COMMA in values[k]) ==> Commas(Row(values)) >= |values|
    decreases |values|
  {
    CommasOfQuoted(values[0]);
    CommasFound(values[0]);
    if |values| > 1 {
      CommasOfRow(values[1..]);
      var rest := Row(values[1..]);
      assert [COMMA][1..] == [] && Commas([COMMA]) == 1;
      hide Commas;
      CommasAppend(Quoted(values[0]) + [COMMA], rest);
      CommasAppend(Quoted(values[0]), [COMMA]);
      assert forall k :: 1 <= k < |values| ==> values[k] == values[1..][k - 1];
    }
  }

  // A row that has no more cells than the header has no comma among its values.
  lemma FitIsFlat(c: Contact)
    requires IsRecord(c) && |Cells(Row(Values(c)))| <= COLUMNS && forall f :: f in c ==> LF !in c[f]
    ensures AllFlat(c)
  {
    hide Written, Row, Values, Commas;
    CellsCounted([], Row(Values(c)));
    CommasOfRow(Values(c));
    forall f | f in c ensures Flat(c[f]) {
      var k: nat :| k < COLUMNS && Written()[k] == f;
      ValuesAre(c, k);
    }
  }

  lemma {:induction false} FittingRows(contacts: seq<Contact>)
    requires AllComplete(contacts) && forall i :: 0 <= i < |contacts| ==> IsRecord(contacts[i])
    requires forall i, f :: 0 <= i < |contacts| && f in contacts[i] ==> LF !in contacts[i][f]
    requires RowsFit(Headings(), Rows(contacts))
    ensures forall i :: 0 <= i < |contacts| ==> AllFlat(contacts[i])
  {
    hide Row, Values, Headings, LineEnd, RowCells, Cells, Complete, IsRecord, AllFlat;
    if contacts != [] {
      ContactLine(contacts[0], Rows(contacts[1..]));
      FitIsFlat(contacts[0]);
      FittingRows(contacts[1..]);
    }
  }

  // Every value comes back: nothing in the last column, and short and plain values in the others.
  ghost predicate Keeps(c: Contact)
    requires Complete(c)
  {
    LAST in c && c[LAST] == "" && forall f :: f in c && f != LAST ==> |c[f]| < Room(f) - 1 && Plain(c[f])
  }

  lemma ReturnedExactly(c: Contact)
    requires IsRecord(c) && AllFlat(c)
    ensures Returned(c) == c <==> Keeps(c)
  {
    hide Written, Unquoted;
    assert Written()[COLUMNS - 1] in Written();
    forall f | f in c ensures Clip(f, Unquoted(c[f])) == c[f] <==> |c[f]| < Room(f) - 1 && Plain(c[f]) {
      QuotesDropped(c[f]);
    }
  }

  lemma KeepsIsFlat(c: Contact)
    requires Complete(c) && Keeps(c)
    ensures AllFlat(c)
  {
    hide Written, Room;
  }

  // Over all records: a dump can be restored, and to the same contacts, exactly when every last column is empty
  // and every other value is plain and does not fill its field.
  lemma ExactlyWhen(contacts: seq<Contact>)
    requires AllComplete(contacts) && forall i :: 0 <= i < |contacts| ==> IsRecord(contacts[i])
    ensures FileFits(Dumped(contacts)) && Restored(Dumped(contacts)) == Some(contacts) <==>
      forall i :: 0 <= i < |contacts| ==> Keeps(contacts[i])
  {
    hide Complete, IsRecord, Keeps, AllFlat, Restored, Dumped, FileFits, Returned;
    if forall i :: 0 <= i < |contacts| ==> Keeps(contacts[i]) {
      forall i | 0 <= i < |contacts| ensures AllFlat(contacts[i]) {
        KeepsIsFlat(contacts[i]);
      }
      FlatExactly(contacts);
    } else if FileFits(Dumped(contacts)) && Restored(Dumped(contacts)) == Some(contacts) {
      SameIsFlat(contacts);
      FlatExactly(contacts);
    }
  }

  lemma SameIsFlat(contacts: seq<Contact>)
    requires AllComplete(contacts) && forall i :: 0 <= i < |contacts| ==> IsRecord(contacts[i])
    requires FileFits(Dumped(contacts)) && Restored(Dumped(contacts)) == Some(contacts)
    ensures forall i :: 0 <= i < |contacts| ==> AllFlat(contacts[i])
  {
    hide Complete, IsRecord, AllFlat, Restored, Dumped, FileFits, Headings, Rows, RowsFit, RestoredRows, Breaks;
    DumpHeader(contacts);
    RowPerBreak(Headings(), Rows(contacts));
    forall i, f | 0 <= i < |contacts| && f in contacts[i] ensures LF !in contacts[i][f] {
      if LF in contacts[i][f] {
        BreaksOfRows(contacts, i, f);
      }
    }
    FittingRows(contacts);
  }

  lemma FlatExactly(contacts: seq<Contact>)
    requires AllComplete(contacts) && forall i :: 0 <= i < |contacts| ==> IsRecord(contacts[i]) && AllFlat(contacts[i])
    ensures FileFits(Dumped(contacts))
    ensures Restored(Dumped(contacts)) == Some(contacts) <==> forall i :: 0 <= i < |contacts| ==> Keeps(contacts[i])
  {
    hide Complete, IsRecord, AllFlat, Keeps, Restored, Dumped, FileFits, Returned;
    RoundTrip(contacts);
    forall i | 0 <= i < |contacts| ensures Returned(contacts[i]) == contacts[i] <==> Keeps(contacts[i]) {
      ReturnedExactly(contacts[i]);
    }
    var got := seq(|contacts|, i requires 0 <= i < |contacts| => Returned(contacts[i]));
    assert got == contacts <==> forall i :: 0 <= i < |contacts| ==> got[i] == contacts[i];
  }

  // A contact with nothing but a business postal code is restored without it.
  lemma PostalCodeLost()
    ensures var c := Blank()[LAST := "12345"];
      && IsRecord(c) && FileFits(Dumped([c])) && Restored(Dumped([c])) == Some([Blank()])
  {
    var c := Blank()[LAST := "12345"];
    PostalRecord(c);
    hide Complete, IsRecord, AllFlat, Restored, Dumped, FileFits, Returned, Blank;
    RoundTrip([c]);
    var got := seq(1, i requires 0 <= i < 1 => Returned([c][i]));
    assert got == [Returned(c)];
  }

  lemma PostalRecord(c: Contact)
    requires c == Blank()[LAST := "12345"]
    ensures IsRecord(c) && AllFlat(c) && Returned(c) == Blank()
  {
    hide Written;
    assert Written()[COLUMNS - 1] in Written();
  }
}
