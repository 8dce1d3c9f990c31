/**
 Header fields read back (parseHeaderString in rfc2emsd.c): what the walk makes of a header that was
 written field by field, from the letters of its fields alone.
 */
module HeaderFields {
  import opened Common
  import opened Header

  /**
   A field as it is written: one that is not known, a MIME field whose name is written in any case, or one
   that other code reads.
   */
  datatype Field =
    | Other(name: string, blanks: string, value: string)
    | Mime(index: nat, name: string, blanks: string, value: string)
    | Known(text: string)

  function Text(f: Field): string {
    match f
    case Other(name, blanks, value) => name + ":" + blanks + value
    case Mime(_, name, blanks, value) => name + blanks + value
    case Known(text) => text
  }

  function Texts(fs: seq<Field>): (texts: seq<string>)
    ensures |texts| == |fs| && forall k :: 0 <= k < |fs| ==> texts[k] == Text(fs[k])
  {
    seq(|fs|, k requires 0 <= k < |fs| => Text(fs[k]))
  }

  /** The same letter, in either case. */
  predicate SameLetter(c: char, d: char) {
    c == d || ('a' <= c <= 'z' && d as int + 32 == c as int) || ('a' <= d <= 'z' && c as int + 32 == d as int)
  }

  predicate Begins(s: string, name: string) {
    |name| <= |s| && forall i :: 0 <= i < |name| ==> SameLetter(s[i], name[i])
  }

  predicate Blanks(s: string) {
    forall i :: 0 <= i < |s| ==> s[i] == ' ' || s[i] == '\t'
  }

  predicate StartsSolid(s: string) {
    s != "" ==> s[0] != ' ' && s[0] != '\t'
  }

  /** The text begins with none of the names. */
  ghost predicate BeginsNone(s: string, names: seq<string>) {
    forall k :: 0 <= k < |names| ==> !Begins(s, names[k])
  }

  ghost predicate Written(f: Field, fields: Fields) {
    match f
    case Other(name, blanks, value) =>
      && ':' !in name && Blanks(blanks) && StartsSolid(value)
      && BeginsNone(Text(f), fields.ignored) && BeginsNone(Text(f), fields.mime)
    case Mime(i, name, blanks, value) =>
      i < |fields.mime| && |name| == |fields.mime[i]| && Begins(name, fields.mime[i]) && Blanks(blanks) && StartsSolid(value)
    case Known(text) => !BeginsNone(text, fields.ignored)
  }

  /** Where the walk stops: an item without a colon that begins with no known name. */
  ghost predicate NoField(item: string, fields: Fields) {
    ':' !in item && BeginsNone(item, fields.ignored) && BeginsNone(item, fields.mime)
  }

  // ---------- names ----------

  /** No text begins with both. */
  ghost predicate Apart(a: string, b: string) {
    exists k :: 0 <= k < |a| && k < |b| && !SameLetter(a[k], b[k])
  }

  /** No MIME name is taken for another name that comes before it. */
  ghost predicate ToldApart(fields: Fields) {
    && (forall i, j :: 0 <= i < |fields.ignored| && 0 <= j < |fields.mime| ==> Apart(fields.ignored[i], fields.mime[j]))
    && (forall i, j :: 0 <= i < j < |fields.mime| ==> Apart(fields.mime[i], fields.mime[j]))
  }

  lemma {:induction false} SameLetterIs(c: char, d: char)
    ensures SameLetter(c, d) <==> Lower(c) == Lower(d)
  {
  }

  lemma {:induction false} BeginsIs(s: string, name: string)
    ensures Begins(s, name) <==> Starts(s, name)
  {
    forall i | 0 <= i < |name| && i < |s| ensures SameLetter(s[i], name[i]) <==> Lower(s[i]) == Lower(name[i]) {
      SameLetterIs(s[i], name[i]);
    }
  }

  lemma {:induction false} MatchesFirst(names: seq<string>, s: string, i: nat)
    requires i < |names| && Begins(s, names[i]) && forall k :: 0 <= k < i ==> !Begins(s, names[k])
    ensures Match(names, s) == Some(i)
  {
    BeginsIs(s, names[0]);
    if i > 0 {
      MatchesFirst(names[1..], s, i - 1);
    }
  }

  lemma {:induction false} MatchesNone(names: seq<string>, s: string)
    requires BeginsNone(s, names)
    ensures Match(names, s).None?
  {
    if names != [] {
      BeginsIs(s, names[0]);
      forall k | 0 <= k < |names[1..]| ensures !Begins(s, names[1..][k]) {
        assert names[1..][k] == names[k + 1];
      }
      MatchesNone(names[1..], s);
    }
  }

  lemma {:induction false} NotBoth(s: string, a: string, b: string)
    requires Apart(a, b) && Begins(s, b)
    ensures !Begins(s, a)
  {
    var k :| 0 <= k < |a| && k < |b| && !SameLetter(a[k], b[k]);
    if Begins(s, a) {
      SameLetterIs(s[k], a[k]);
      SameLetterIs(s[k], b[k]);
      SameLetterIs(a[k], b[k]);
    }
  }

  lemma {:induction false} SomeIgnored(names: seq<string>, s: string)
    requires !BeginsNone(s, names)
    ensures Match(names, s).Some?
  {
    BeginsIs(s, names[0]);
    if !Starts(s, names[0]) {
      var k :| 0 <= k < |names| && Begins(s, names[k]);
      assert names[1..][k - 1] == names[k];
      SomeIgnored(names[1..], s);
    }
  }

  // ---------- one field ----------

  lemma {:induction false} BlanksSkipped(blanks: string, value: string)
    requires Blanks(blanks) && StartsSolid(value)
    ensures SkipBlanks(blanks + value) == value
  {
    if blanks != "" {
      assert (blanks + value)[1..] == blanks[1..] + value;
      BlanksSkipped(blanks[1..], value);
    } else {
      assert blanks + value == value;
    }
  }

  lemma {:induction false} OtherIsExtension(f: Field, fields: Fields)
    requires Written(f, fields) && f.Other?
    ensures Classify(Text(f), fields) == Some(Extension(f.name, f.value))
  {
    var item := Text(f);
    MatchesNone(fields.ignored, item);
    MatchesNone(fields.mime, item);
    ColonIs(item, |f.name|);
    assert item[..|f.name|] == f.name && item[|f.name| + 1..] == f.blanks + f.value;
    BlanksSkipped(f.blanks, f.value);
  }

  lemma {:induction false} MimeIsMime(f: Field, fields: Fields)
    requires Written(f, fields) && f.Mime? && ToldApart(fields)
    ensures Classify(Text(f), fields) == Some(MimeField(f.index, f.value))
  {
    var item, n := Text(f), |f.name|;
    assert Begins(item, fields.mime[f.index]);
    forall k | 0 <= k < |fields.ignored| ensures !Begins(item, fields.ignored[k]) {
      NotBoth(item, fields.ignored[k], fields.mime[f.index]);
    }
    MatchesNone(fields.ignored, item);
    forall k | 0 <= k < f.index ensures !Begins(item, fields.mime[k]) {
      NotBoth(item, fields.mime[k], fields.mime[f.index]);
    }
    MatchesFirst(fields.mime, item, f.index);
    assert item[n..] == f.blanks + f.value;
    BlanksSkipped(f.blanks, f.value);
  }

  lemma {:induction false} JunkIsNone(item: string, fields: Fields)
    requires NoField(item, fields)
    ensures Classify(item, fields).None?
  {
    MatchesNone(fields.ignored, item);
    MatchesNone(fields.mime, item);
    ColonIs(item, |item|);
  }

  // ---------- all of them ----------

  /** The fields that are not known, in order. */
  function Others(fs: seq<Field>): seq<(string, string)> {
    if fs == [] then []
    else (if fs[0].Other? then [(fs[0].name, fs[0].value)] else []) + Others(fs[1..])
  }

  /** The value of the last field that is MIME field i. */
  function LastMime(fs: seq<Field>, i: nat): Option<string> {
    if fs == [] then None
    else if LastMime(fs[1..], i).Some? then LastMime(fs[1..], i)
    else if fs[0].Mime? && fs[0].index == i then Some(fs[0].value)
    else None
  }

  /** What the heading holds for MIME field i. */
  function MimeValue(h: Heading, i: nat): Option<string> {
    if i in h.mime then Some(h.mime[i]) else None
  }

  /** The heading after these fields. */
  ghost predicate Holds(before: Heading, fs: seq<Field>, after: Heading) {
    && after.extensions == before.extensions + Others(fs)
    && forall i :: MimeValue(after, i) == if LastMime(fs, i).Some? then LastMime(fs, i) else MimeValue(before, i)
  }

  lemma {:induction false} OneHolds(f: Field, fields: Fields, h: Heading)
    requires Written(f, fields) && ToldApart(fields)
    ensures Classify(Text(f), fields).Some?
    ensures Holds(h, [f], Fill(h, Classify(Text(f), fields).value))
  {
    assert [f][1..] == [];
    match f
    case Other(_, _, _) => OtherIsExtension(f, fields);
    case Mime(_, _, _, _) => MimeIsMime(f, fields);
    case Known(text) => SomeIgnored(fields.ignored, text);
  }

  lemma {:induction false} HoldsBoth(a: Heading, fs: seq<Field>, b: Heading, c: Heading)
    requires fs != [] && Holds(a, [fs[0]], b) && Holds(b, fs[1..], c)
    ensures Holds(a, fs, c)
  {
    assert [fs[0]][1..] == [];
    assert Others([fs[0]]) == if fs[0].Other? then [(fs[0].name, fs[0].value)] else [];
    forall i ensures MimeValue(c, i) == if LastMime(fs, i).Some? then LastMime(fs, i) else MimeValue(a, i) {
      assert LastMime([fs[0]], i) == if fs[0].Mime? && fs[0].index == i then Some(fs[0].value) else None;
    }
  }

  lemma {:induction false} WalkHolds(fs: seq<Field>, rest: seq<string>, fields: Fields, h: Heading)
    requires (forall k :: 0 <= k < |fs| ==> Written(fs[k], fields)) && ToldApart(fields)
    requires rest != [] ==> NoField(rest[0], fields)
    ensures Holds(h, fs, Walk(Texts(fs) + rest, fields, h))
  {
    if fs == [] {
      assert Texts(fs) + rest == rest;
      if rest != [] {
        JunkIsNone(rest[0], fields);
      }
    } else {
      OneHolds(fs[0], fields, h);
      var next := Fill(h, Classify(Text(fs[0]), fields).value);
      assert (Texts(fs) + rest)[1..] == Texts(fs[1..]) + rest;
      WalkHolds(fs[1..], rest, fields, next);
      HoldsBoth(h, fs, next, Walk(Texts(fs[1..]) + rest, fields, next));
    }
  }

  lemma {:induction false} UnlinesTerminated(items: seq<string>)
    ensures var text := Unlines(items); text != [] ==> text[|text| - 1] == '\n'
  {
    if items != [] {
      UnlinesTerminated(items[1..]);
    }
  }

  /**
   A header written field by field is read back: exactly the unknown fields, in order, with the name before
   the colon and the value after it without leading blanks, and of every MIME field the last value; what other
   code reads changes nothing, and neither does anything after an item that is no field.
   */
  lemma {:induction false} FieldsReadBack(fs: seq<Field>, rest: seq<string>, fields: Fields)
    requires (forall k :: 0 <= k < |fs| ==> Written(fs[k], fields)) && ToldApart(fields)
    requires Separable(Texts(fs) + rest) && (rest != [] ==> NoField(rest[0], fields))
    ensures var r := Walked(Unlines(Texts(fs) + rest), fields, EMPTY);
            && r.Some? && r.value.extensions == Others(fs)
            && forall i :: MimeValue(r.value, i) == LastMime(fs, i)
  {
    var items := Texts(fs) + rest;
    var text := Unlines(items);
    UnlinesTerminated(items);
    TerminatedIsFinished(text);
    WalkFailsExactly(text, fields, EMPTY);
    ItemsOfUnlines(items);
    WalkHolds(fs, rest, fields, EMPTY);
  }

  // ---------- the names of the code ----------

  lemma {:induction false} IgnoredApart(i: nat, j: nat)
    requires i < |FIELDS.ignored| && j < |FIELDS.mime|
    ensures Apart(FIELDS.ignored[i], FIELDS.mime[j])
  {
    var a, b := FIELDS.ignored[i], FIELDS.mime[j];
    assert |a| >= 2 && |b| >= 2;
    assert !SameLetter(a[0], b[0]) || !SameLetter(a[1], b[1]);
  }

  lemma {:induction false} MimeApart(i: nat, j: nat)
    requires i < j < |FIELDS.mime|
    ensures Apart(FIELDS.mime[i], FIELDS.mime[j])
  {
    var a, b := FIELDS.mime[i], FIELDS.mime[j];
    assert |a| >= 10 && |b| >= 10;
    assert !SameLetter(a[0], b[0]) || !SameLetter(a[8], b[8]) || !SameLetter(a[9], b[9]);
  }

  lemma {:induction false} TheyAreToldApart()
    ensures ToldApart(FIELDS)
  {
    forall i, j | 0 <= i < |FIELDS.ignored| && 0 <= j < |FIELDS.mime| ensures Apart(FIELDS.ignored[i], FIELDS.mime[j]) {
      IgnoredApart(i, j);
    }
    forall i, j | 0 <= i < j < |FIELDS.mime| ensures Apart(FIELDS.mime[i], FIELDS.mime[j]) {
      MimeApart(i, j);
    }
  }

  // ---------- carriage returns ----------

  /** Items written the way they travel. */
  function CrlfLines(items: seq<string>): string {
    if items == [] then [] else items[0] + "\r\n" + CrlfLines(items[1..])
  }

  lemma {:induction false} Regroup(x: string, y: string, z: string)
    ensures x + y + z == x + (y + z)
  {
  }

  lemma {:induction false} UpToNext(s: string, k: nat)
    requires k < |s|
    ensures s[..k] + [s[k]] == s[..k + 1]
  {
  }

  lemma {:induction false} OneMore(s: string, c: char)
    ensures WithoutCR(s + [c]) == WithoutCR(s) + if c == '\r' then [] else [c]
  {
    assert (s + [c])[..|s|] == s;
  }

  lemma {:induction false} BothOneMore(a: string, b: string, c: char)
    requires WithoutCR(a + b) == WithoutCR(a) + WithoutCR(b)
    ensures WithoutCR(a + (b + [c])) == WithoutCR(a) + WithoutCR(b + [c])
  {
    OneMore(b, c);
    OneMore(a + b, c);
    Regroup(a, b, [c]);
    Regroup(WithoutCR(a), WithoutCR(b), if c == '\r' then [] else [c]);
  }

  lemma {:induction false} LastApart(s: string)
    requires s != []
    ensures s[..|s| - 1] + [s[|s| - 1]] == s
  {
  }

  lemma {:induction false} WithoutCRBoth(a: string, b: string)
    ensures WithoutCR(a + b) == WithoutCR(a) + WithoutCR(b)
  {
    if b == [] {
      assert a + b == a;
    } else {
      var n := |b| - 1;
      WithoutCRBoth(a, b[..n]);
      BothOneMore(a, b[..n], b[n]);
      LastApart(b);
    }
  }

  lemma {:induction false} NoneUpTo(s: string, k: nat)
    requires '\r' !in s && k <= |s|
    ensures WithoutCR(s[..k]) == s[..k]
  {
    if k > 0 {
      NoneUpTo(s, k - 1);
      WithoutCRNext(s, k - 1);
      UpToNext(s, k - 1);
      assert s[k - 1] in s;
    }
  }

  lemma {:induction false} CrlfAlone()
    ensures WithoutCR("\r\n") == "\n"
  {
    WithoutCRNext("\r\n", 0);
    WithoutCRNext("\r\n", 1);
    assert "\r\n"[..0] == "" && "\r\n"[..2] == "\r\n";
  }

  lemma {:induction false} CrlfIsNewline(item: string)
    requires '\r' !in item
    ensures WithoutCR(item + "\r\n") == item + "\n"
  {
    WithoutCRBoth(item, "\r\n");
    NoneUpTo(item, |item|);
    assert item[..|item|] == item;
    CrlfAlone();
  }

  lemma {:induction false} CrlfIsUnlines(items: seq<string>)
    requires forall k :: 0 <= k < |items| ==> '\r' !in items[k]
    ensures WithoutCR(CrlfLines(items)) == Unlines(items)
  {
    if items != [] {
      CrlfIsUnlines(items[1..]);
      CrlfIsNewline(items[0]);
      WithoutCRBoth(items[0] + "\r\n", CrlfLines(items[1..]));
    }
  }

  /** So what parseHeaderString comes to for such a header, with the names it has, is what was written. */
  lemma {:induction false} HeaderReadsBack(fs: seq<Field>, rest: seq<string>)
    requires forall k :: 0 <= k < |fs| ==> Written(fs[k], FIELDS)
    requires Separable(Texts(fs) + rest) && (rest != [] ==> NoField(rest[0], FIELDS))
    requires forall k :: 0 <= k < |Texts(fs) + rest| ==> '\r' !in (Texts(fs) + rest)[k]
    ensures var r := Walked(WithoutCR(CrlfLines(Texts(fs) + rest)), FIELDS, EMPTY);
            && r.Some? && r.value.extensions == Others(fs)
            && forall i :: MimeValue(r.value, i) == LastMime(fs, i)
  {
    CrlfIsUnlines(Texts(fs) + rest);
    TheyAreToldApart();
    FieldsReadBack(fs, rest, FIELDS);
  }
}
