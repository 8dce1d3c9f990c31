/**
 The header of a message to be delivered (parseHeaderString in rfc2emsd.c): carriage returns are
 filtered out in place, and the text is walked item by item, a folded item being one.
 */
module Header {
  import opened Common

  // ---------- filtering out carriage returns ----------

  function WithoutCR(s: string): (r: string)
    ensures |r| <= |s| && '\r' !in r
  {
    if s == [] then []
    else
      var n := |s| - 1;
      WithoutCR(s[..n]) + if s[n] == '\r' then [] else [s[n]]
  }

  lemma WithoutCRNext(text: string, k: nat)
    requires k < |text|
    ensures WithoutCR(text[..k + 1]) == WithoutCR(text[..k]) + if text[k] == '\r' then [] else [text[k]]
  {
    assert text[..k + 1][..k] == text[..k];
  }

  /** A C string: the characters before the first NUL. */
  ghost predicate IsString(buf: array<char>, n: nat)
    reads buf
  {
    n < buf.Length && buf[n] == '\0' && forall i :: 0 <= i < n ==> buf[i] != '\0'
  }

  /** The loop that copies all but the carriage returns down the buffer. */
  method StripCR(buf: array<char>, n: nat) returns (m: nat)
    requires IsString(buf, n)
    modifies buf
    ensures IsString(buf, m) && buf[..m] == WithoutCR(old(buf[..n]))
  {
    ghost var text, kept := buf[..n], "";
    var p1: nat, p2: nat := 0, 0;
    assert text[..0] == [];
    while buf[p2] != '\0'
      invariant p1 <= p2 <= n
      invariant kept == WithoutCR(text[..p2]) && |kept| == p1
      invariant forall i :: 0 <= i < p1 ==> buf[i] == kept[i] && buf[i] != '\0'
      invariant buf[n] == '\0' && forall i :: p2 <= i < n ==> buf[i] == text[i] && buf[i] != '\0'
      decreases n - p2
    {
      WithoutCRNext(text, p2);
      if buf[p2] != '\r' {
        kept := kept + [buf[p2]];
        buf[p1] := buf[p2];
        p1 := p1 + 1;
      }
      p2 := p2 + 1;
    }
    assert text[..p2] == text;
    buf[p1] := '\0';
    m := p1;
    assert buf[..m] == kept;
  }

  // ---------- items ----------

  predicate IsBlank(c: char) { c == ' ' || c == '\t' }

  /** The newline at i goes on with the line before it: a blank follows. */
  predicate Folds(text: string, i: nat) {
    i + 1 < |text| && text[i] == '\n' && IsBlank(text[i + 1])
  }

  predicate Ends(text: string, i: nat) {
    i < |text| && text[i] == '\n' && !Folds(text, i)
  }

  /** Where the item that starts at `i` ends: the first newline that does not fold, or the end of the text. */
  function ItemEnd(text: string, i: nat): (e: nat)
    requires i <= |text|
    ensures i <= e <= |text| && (e < |text| ==> Ends(text, e))
    ensures forall k :: i <= k < e ==> !Ends(text, k)
    decreases |text| - i
  {
    if i == |text| || Ends(text, i) then i else ItemEnd(text, i + 1)
  }

  /** The items of a text, in order. */
  function Items(text: string): seq<string> {
    if text == [] then []
    else
      var e := ItemEnd(text, 0);
      [text[..e]] + if e < |text| then Items(text[e + 1..]) else []
  }

  /** Items written one after the other, each with its newline. */
  function Unlines(items: seq<string>): string {
    if items == [] then [] else items[0] + "\n" + Unlines(items[1..])
  }

  /** One item: every newline in it folds. */
  predicate IsItem(item: string) {
    forall i :: 0 <= i < |item| && item[i] == '\n' ==> Folds(item, i)
  }

  /** Items that can be told apart again: none but the first starts with a blank. */
  predicate Separable(items: seq<string>) {
    && (forall k :: 0 <= k < |items| ==> IsItem(items[k]))
    && (forall k :: 1 <= k < |items| ==> items[k] == [] || !IsBlank(items[k][0]))
  }

  lemma EndIs(text: string, i: nat, e: nat)
    requires i <= e <= |text| && (e < |text| ==> Ends(text, e))
    requires forall k :: i <= k < e ==> !Ends(text, k)
    ensures ItemEnd(text, i) == e
  {
  }

  lemma SplitAt(text: string, e: nat)
    requires e < |text| && text[e] == '\n'
    ensures text == text[..e] + "\n" + text[e + 1..]
  {
  }

  /** Nothing is lost: the items of a newline-terminated text, written out again, are the text. */
  lemma {:induction false} ItemsJoin(text: string)
    requires text != [] ==> text[|text| - 1] == '\n'
    ensures Unlines(Items(text)) == text && Separable(Items(text))
    decreases |text|
  {
    if text != [] {
      var e := ItemEnd(text, 0);
      assert Ends(text, |text| - 1);
      var rest := text[e + 1..];
      assert rest != [] ==> rest[|rest| - 1] == text[|text| - 1];
      ItemsJoin(rest);
      ItemIsItem(text, e);
      NextStarts(text, e);
      SplitAt(text, e);
      ConsJoin(text[..e], Items(rest));
    }
  }

  lemma {:induction false} ConsJoin(item: string, items: seq<string>)
    requires IsItem(item) && Separable(items) && (items != [] && items[0] != [] ==> !IsBlank(items[0][0]))
    ensures Separable([item] + items) && Unlines([item] + items) == item + "\n" + Unlines(items)
  {
    assert ([item] + items)[1..] == items;
    assert forall k :: 1 <= k < |[item] + items| ==> ([item] + items)[k] == items[k - 1];
  }

  lemma ItemIsItem(text: string, e: nat)
    requires e < |text| && Ends(text, e) && forall k :: 0 <= k < e ==> !Ends(text, k)
    ensures IsItem(text[..e])
  {
    forall i | 0 <= i < e && text[..e][i] == '\n' ensures Folds(text[..e], i) {
      assert !Ends(text, i);
    }
  }

  lemma NextStarts(text: string, e: nat)
    requires e < |text| && Ends(text, e)
    ensures var items := Items(text[e + 1..]); items != [] && items[0] != [] ==> !IsBlank(items[0][0])
  {
  }

  lemma {:induction false} NoEndInside(item: string, rest: string, k: nat)
    requires IsItem(item) && k < |item|
    ensures !Ends(item + "\n" + rest, k)
  {
    var text := item + "\n" + rest;
    assert text[k] == item[k];
    if item[k] == '\n' {
      assert Folds(item, k) && text[k + 1] == item[k + 1];
    }
  }

  lemma FirstItem(item: string, rest: string)
    requires IsItem(item) && (rest == [] || !IsBlank(rest[0]))
    ensures Items(item + "\n" + rest) == [item] + Items(rest)
  {
    var text := item + "\n" + rest;
    forall k | 0 <= k < |item| ensures !Ends(text, k) {
      NoEndInside(item, rest, k);
    }
    assert text[|item|] == '\n' && (rest != [] ==> text[|item| + 1] == rest[0]);
    EndIs(text, 0, |item|);
    assert text[..|item|] == item && text[|item| + 1..] == rest;
  }

  /** And only one way of taking the text apart: items that can be told apart come back as they were. */
  lemma {:induction false} ItemsOfUnlines(items: seq<string>)
    requires Separable(items)
    ensures Items(Unlines(items)) == items
  {
    if items != [] {
      assert forall k :: 0 <= k < |items[1..]| ==> items[1..][k] == items[k + 1];
      ItemsOfUnlines(items[1..]);
      RestStarts(items);
      FirstItem(items[0], Unlines(items[1..]));
    }
  }

  lemma RestStarts(items: seq<string>)
    requires Separable(items) && items != []
    ensures var rest := Unlines(items[1..]); rest != [] ==> !IsBlank(rest[0])
  {
    if |items| > 1 {
      assert items[1..][0] == items[1];
    }
  }

  // ---------- what an item is ----------

  /** Names of fields that other code reads, and of the MIME fields. */
  datatype Fields = Fields(ignored: seq<string>, mime: seq<string>)

  /** ">From " is compared without its blank. */
  const FIELDS := Fields(
    [">From", "BCC:", "CC:", "Date:", "From ", "From:", "In-Reply-To:", "Message-ID:", "Reply-To:", "Sender:",
     "Subject:", "To:"],
    ["Content-Description:", "Content-Id:", "Content-Transfer-Encoding:", "Content-Type:", "MIME-Version:"])

  predicate OneLine(names: seq<string>) {
    forall k :: 0 <= k < |names| ==> '\n' !in names[k]
  }

  function Lower(c: char): char {
    if 'A' <= c <= 'Z' then (c - 'A') + 'a' else c
  }

  /** OS_strncasecmp over the length of the name. */
  predicate Starts(s: string, name: string) {
    |name| <= |s| && forall i :: 0 <= i < |name| ==> Lower(s[i]) == Lower(name[i])
  }

  /** The first of the names the text starts with. */
  function Match(names: seq<string>, s: string): (r: Option<nat>)
    ensures r.Some? ==> r.value < |names| && Starts(s, names[r.value])
  {
    if names == [] then None
    else if Starts(s, names[0]) then Some(0)
    else match Match(names[1..], s) case None => None case Some(i) => Some(i + 1)
  }

  function SkipBlanks(s: string): string {
    if s != [] && IsBlank(s[0]) then SkipBlanks(s[1..]) else s
  }

  /** Where the first `c` is; the length when there is none. */
  function IndexOf(s: string, c: char): (i: nat)
    ensures i <= |s| && (i < |s| ==> s[i] == c) && forall k :: 0 <= k < i ==> s[k] != c
  {
    if s == [] || s[0] == c then 0 else 1 + IndexOf(s[1..], c)
  }

  datatype Part = Ignored | MimeField(index: nat, value: string) | Extension(name: string, value: string)

  /** What becomes of an item; None for one without a colon, where the walk stops. */
  function Classify(item: string, fields: Fields): Option<Part> {
    if Match(fields.ignored, item).Some? then Some(Ignored)
    else
      match Match(fields.mime, item)
      case Some(i) => Some(MimeField(i, SkipBlanks(item[|fields.mime[i]|..])))
      case None =>
        var colon := IndexOf(item, ':');
        if colon == |item| then None else Some(Extension(item[..colon], SkipBlanks(item[colon + 1..])))
  }

  datatype Heading = Heading(mime: map<nat, string>, extensions: seq<(string, string)>)

  function Fill(h: Heading, part: Part): Heading {
    match part
    case Ignored => h
    case MimeField(i, value) => h.(mime := h.mime[i := value])
    case Extension(name, value) => h.(extensions := h.extensions + [(name, value)])
  }

  /** The items one after the other, up to the first without a colon. */
  function Walk(items: seq<string>, fields: Fields, h: Heading): Heading {
    if items == [] then h
    else match Classify(items[0], fields) case None => h case Some(part) => Walk(items[1..], fields, Fill(h, part))
  }

  /** What the items become, up to the first without a colon. */
  function Parts(items: seq<string>, fields: Fields): (parts: seq<Part>)
    ensures |parts| <= |items|
    ensures forall k :: 0 <= k < |parts| ==> Classify(items[k], fields) == Some(parts[k])
    ensures |parts| < |items| ==> Classify(items[|parts|], fields).None?
  {
    if items == [] then []
    else match Classify(items[0], fields) case None => [] case Some(part) => [part] + Parts(items[1..], fields)
  }

  /** The extensions among the parts, in order. */
  function Extensions(parts: seq<Part>): seq<(string, string)> {
    if parts == [] then []
    else (if parts[0].Extension? then [(parts[0].name, parts[0].value)] else []) + Extensions(parts[1..])
  }

  /** The last value given for a MIME field. */
  function LastValue(parts: seq<Part>, i: nat): Option<string> {
    if parts == [] then None
    else
      var last := parts[|parts| - 1];
      if last.MimeField? && last.index == i then Some(last.value) else LastValue(parts[..|parts| - 1], i)
  }

  function IgnoredCount(parts: seq<Part>): nat {
    if parts == [] then 0 else (if parts[0].Ignored? then 1 else 0) + IgnoredCount(parts[1..])
  }

  function MimeCount(parts: seq<Part>): nat {
    if parts == [] then 0 else (if parts[0].MimeField? then 1 else 0) + MimeCount(parts[1..])
  }

  function FillAll(h: Heading, parts: seq<Part>): Heading
    decreases |parts|
  {
    if parts == [] then h else FillAll(Fill(h, parts[0]), parts[1..])
  }

  lemma {:induction false} WalkFills(items: seq<string>, fields: Fields, h: Heading)
    ensures Walk(items, fields, h) == FillAll(h, Parts(items, fields))
  {
    if items != [] && Classify(items[0], fields).Some? {
      WalkFills(items[1..], fields, Fill(h, Classify(items[0], fields).value));
      assert Parts(items, fields)[1..] == Parts(items[1..], fields);
    }
  }

  lemma {:induction false} ExtensionsFilled(h: Heading, parts: seq<Part>)
    ensures FillAll(h, parts).extensions == h.extensions + Extensions(parts)
    decreases |parts|
  {
    if parts != [] {
      ExtensionsFilled(Fill(h, parts[0]), parts[1..]);
    }
  }

  lemma {:induction false} MimeFilled(h: Heading, parts: seq<Part>, i: nat)
    ensures var r := FillAll(h, parts).mime;
            match LastValue(parts, i)
            case Some(value) => i in r && r[i] == value
            case None => (i in r <==> i in h.mime) && (i in r ==> r[i] == h.mime[i])
    decreases |parts|
  {
    if parts != [] {
      MimeFilled(Fill(h, parts[0]), parts[1..], i);
      LastOfRest(parts, i);
    }
  }

  lemma {:induction false} LastOfRest(parts: seq<Part>, i: nat)
    requires parts != []
    ensures LastValue(parts, i) ==
            match LastValue(parts[1..], i)
            case Some(value) => Some(value)
            case None => if parts[0].MimeField? && parts[0].index == i then Some(parts[0].value) else None
  {
    var n := |parts| - 1;
    if n > 0 {
      assert parts[1..][..n - 1] == parts[..n][1..];
      assert parts[1..][n - 1] == parts[n];
      LastOfRest(parts[..n], i);
    } else {
      assert parts[..0] == [] && parts[1..] == [];
    }
  }

  const EMPTY := Heading(map[], [])

  /**
   Every item before the first without a colon goes to exactly one place: it is ignored, or it is the
   value of a MIME field, of which the last one stays, or it is the next extension.
   */
  lemma EveryItemOnce(items: seq<string>, fields: Fields, i: nat)
    ensures var parts, h := Parts(items, fields), Walk(items, fields, EMPTY);
            && h.extensions == Extensions(parts)
            && (match LastValue(parts, i) case Some(value) => i in h.mime && h.mime[i] == value case None => i !in h.mime)
            && |parts| == IgnoredCount(parts) + MimeCount(parts) + |h.extensions|
  {
    WalkFills(items, fields, EMPTY);
    ExtensionsFilled(EMPTY, Parts(items, fields));
    MimeFilled(EMPTY, Parts(items, fields), i);
    PartsCount(Parts(items, fields));
  }

  lemma {:induction false} PartsCount(parts: seq<Part>)
    ensures |parts| == IgnoredCount(parts) + MimeCount(parts) + |Extensions(parts)|
  {
    if parts != [] {
      PartsCount(parts[1..]);
    }
  }

  // ---------- the walk ----------

  /** A text that ends in a continuation line without a newline. */
  ghost predicate Unfinished(text: string) {
    exists i: nat :: i < |text| && Folds(text, i) && forall j :: i < j < |text| ==> text[j] != '\n'
  }

  /** A header that ends in a newline is finished. */
  lemma {:induction false} TerminatedIsFinished(text: string)
    requires text != [] ==> text[|text| - 1] == '\n'
    ensures !Unfinished(text)
  {
    forall i: nat | i < |text| && Folds(text, i) ensures exists j :: i < j < |text| && text[j] == '\n' {
      assert i < |text| - 1 && text[|text| - 1] == '\n';
    }
  }

  /** The item at the front is folded and has no end: the code goes on searching from a null pointer. */
  predicate Dangling(text: string) {
    ItemEnd(text, 0) == |text| && '\n' in text
  }

  /** The text after its first item. */
  function Rest(text: string): (r: string)
    requires text != []
    ensures |r| < |text|
  {
    var e := ItemEnd(text, 0);
    if e < |text| then text[e + 1..] else []
  }

  /** What the walk through a text comes to; None where it goes on from a null pointer. */
  function Walked(text: string, fields: Fields, h: Heading): Option<Heading>
    decreases |text|
  {
    if text == [] then Some(h)
    else if Dangling(text) then None
    else
      match Classify(text[..ItemEnd(text, 0)], fields)
      case None => Some(h)
      case Some(part) => Walked(Rest(text), fields, Fill(h, part))
  }

  /** The last newline of a text. */
  predicate IsLast(text: string, i: nat) {
    i < |text| && text[i] == '\n' && forall j :: i < j < |text| ==> text[j] != '\n'
  }

  lemma WalkedStep(text: string, e: nat, fields: Fields, h: Heading)
    requires text != [] && !Dangling(text) && e == ItemEnd(text, 0)
    ensures var rest := if e < |text| then text[e + 1..] else [];
            match Classify(text[..e], fields)
            case None => Walked(text, fields, h) == Some(h)
            case Some(part) => Walked(text, fields, h) == Walked(rest, fields, Fill(h, part))
  {
  }

  lemma {:induction false} LastNewline(text: string, i: nat, k: nat) returns (last: nat)
    requires i < k <= |text| && text[i] == '\n' && forall j :: k <= j < |text| ==> text[j] != '\n'
    ensures IsLast(text, last)
  {
    if text[k - 1] == '\n' {
      last := k - 1;
    } else {
      last := LastNewline(text, i, k - 1);
    }
  }

  lemma DanglingIsUnfinished(text: string)
    requires Dangling(text)
    ensures Unfinished(text) && Items(text) == [text]
  {
    var k :| 0 <= k < |text| && text[k] == '\n';
    var i := LastNewline(text, k, |text|);
    assert !Ends(text, i) && Folds(text, i);
    assert text[..|text|] == text;
  }

  /** Whether a text is unfinished shows after its first item, if that has an end. */
  lemma UnfinishedRest(text: string)
    requires text != [] && !Dangling(text)
    ensures Unfinished(text) <==> Unfinished(Rest(text))
  {
    var e := ItemEnd(text, 0);
    var rest := Rest(text);
    if e < |text| {
      forall i: nat | i < |rest| ensures Folds(rest, i) <==> Folds(text, e + 1 + i) { }
      if Unfinished(text) {
        var i: nat :| i < |text| && Folds(text, i) && forall j :: i < j < |text| ==> text[j] != '\n';
        assert text[e] == '\n' && i > e;
        assert Folds(rest, i - e - 1) && forall j :: i - e - 1 < j < |rest| ==> rest[j] == text[e + 1 + j];
      }
      if Unfinished(rest) {
        var i: nat :| i < |rest| && Folds(rest, i) && forall j :: i < j < |rest| ==> rest[j] != '\n';
        assert Folds(text, e + 1 + i) && forall j :: e + 1 + i < j < |text| ==> text[j] == rest[j - e - 1];
      }
    }
  }

  /** Every item but the last has a place in the heading. */
  ghost predicate AllBeforeLast(items: seq<string>, fields: Fields) {
    forall k :: 0 <= k < |items| - 1 ==> Classify(items[k], fields).Some?
  }

  lemma AllBeforeLastCons(item: string, items: seq<string>, fields: Fields)
    requires items != []
    ensures AllBeforeLast([item] + items, fields) <==> Classify(item, fields).Some? && AllBeforeLast(items, fields)
  {
    var all := [item] + items;
    if AllBeforeLast(all, fields) {
      assert all[0] == item;
      forall k | 0 <= k < |items| - 1 ensures Classify(items[k], fields).Some? {
        assert all[k + 1] == items[k];
      }
    }
  }

  /**
   The walk fails exactly when the text ends in a continuation line without a newline and every item
   before that one has a place in the heading; otherwise it comes to what its items say.
   */
  lemma {:induction false} WalkFailsExactly(text: string, fields: Fields, h: Heading)
    ensures Walked(text, fields, h).None? <==> Unfinished(text) && AllBeforeLast(Items(text), fields)
    ensures Walked(text, fields, h).Some? ==> Walked(text, fields, h) == Some(Walk(Items(text), fields, h))
    decreases |text|
  {
    if text == [] {
    } else if Dangling(text) {
      DanglingIsUnfinished(text);
    } else {
      UnfinishedRest(text);
      var item, rest := text[..ItemEnd(text, 0)], Rest(text);
      var part := Classify(item, fields);
      assert Items(text) == [item] + Items(rest);
      assert (([item] + Items(rest))[1..]) == Items(rest);
      if rest != [] {
        AllBeforeLastCons(item, Items(rest), fields);
      }
      if part.Some? {
        WalkFailsExactly(rest, fields, Fill(h, part.value));
      }
    }
  }

  /** A folded last line without its newline makes the walk fail, whatever the names of the fields are. */
  lemma ContinuationFails(fields: Fields)
    ensures Walked("X: a\n b", fields, EMPTY).None?
  {
    var text := "X: a\n b";
    assert text[4] == '\n' && Folds(text, 4);
    EndIs(text, 0, |text|);
  }

  /** A text matches no name when its first character begins none. */
  lemma {:induction false} NoMatch(names: seq<string>, s: string)
    requires s != [] && forall k :: 0 <= k < |names| ==> names[k] != [] && Lower(names[k][0]) != Lower(s[0])
    ensures Match(names, s).None?
  {
    if names != [] {
      assert names[0] != [] && !Starts(s, names[0]);
      NoMatch(names[1..], s);
    }
  }

  /** The walk does not get as far as such a line when an item before it has no colon. */
  lemma StopsBefore(fields: Fields)
    requires forall k :: 0 <= k < |fields.ignored| ==> fields.ignored[k] != [] && Lower(fields.ignored[k][0]) != 'j'
    requires forall k :: 0 <= k < |fields.mime| ==> fields.mime[k] != [] && Lower(fields.mime[k][0]) != 'j'
    ensures Unfinished("junk\nX: a\n b") && Walked("junk\nX: a\n b", fields, EMPTY) == Some(EMPTY)
  {
    var text := "junk\nX: a\n b";
    assert Ends(text, 4) && Folds(text, 9);
    EndIs(text, 0, 4);
    assert text[..4] == "junk";
    NoMatch(fields.ignored, "junk");
    NoMatch(fields.mime, "junk");
    ColonIs("junk", 4);
  }

  /** So it is with the names the code has. */
  lemma StopsBeforeHere()
    ensures Unfinished("junk\nX: a\n b") && Walked("junk\nX: a\n b", FIELDS, EMPTY) == Some(EMPTY)
  {
    StopsBefore(FIELDS);
  }

  /** strchr, from a position on. */
  method FindChar(buf: array<char>, n: nat, from: nat, c: char) returns (r: Option<nat>)
    requires IsString(buf, n) && from <= n && c != '\0'
    ensures r.Some? ==> from <= r.value < n && buf[r.value] == c && forall k :: from <= k < r.value ==> buf[k] != c
    ensures r.None? ==> forall k :: from <= k < n ==> buf[k] != c
  {
    var i := from;
    while buf[i] != '\0' && buf[i] != c
      invariant from <= i <= n && forall k :: from <= k < i ==> buf[k] != c
      decreases n - i
    {
      i := i + 1;
    }
    r := if buf[i] == c then Some(i) else None;
  }

  /** Find the end of the item that starts at p: a newline followed by a blank goes on. None is the null pointer. */
  method FindEnd(buf: array<char>, n: nat, p: nat) returns (pEnd: Option<nat>)
    requires IsString(buf, n) && p < n
    ensures pEnd.None? <==> Dangling(buf[p..n])
    ensures pEnd.Some? ==> p <= pEnd.value <= n && pEnd.value == p + ItemEnd(buf[p..n], 0)
  {
    ghost var text := buf[..n];
    assert buf[p..n] == text[p..];
    var r := FindChar(buf, n, p, '\n');
    var e := if r.Some? then r.value else n;
    while buf[e] == '\n' && (buf[e + 1] == ' ' || buf[e + 1] == '\t')
      invariant p <= e <= n && (e < n ==> buf[e] == '\n')
      invariant e == n ==> forall k :: p <= k < n ==> buf[k] != '\n'
      invariant forall k :: p <= k < e ==> !Ends(text, k)
      decreases n - e
    {
      assert Folds(text, e);
      r := FindChar(buf, n, e + 1, '\n');
      if r.None? {
        EndFromHere(text, p, n);
        assert text[p..][e - p] == '\n';
        return None;
      }
      e := r.value;
    }
    EndFromHere(text, p, e);
    assert e == n ==> forall k :: 0 <= k < n - p ==> text[p..][k] == buf[p + k];
    pEnd := Some(e);
  }

  lemma EndFromHere(text: string, p: nat, e: nat)
    requires p <= e <= |text| && (e < |text| ==> Ends(text, e))
    requires forall k :: p <= k < e ==> !Ends(text, k)
    ensures ItemEnd(text[p..], 0) == e - p
  {
    forall k | 0 <= k <= e - p && k < |text| - p ensures Ends(text[p..], k) <==> Ends(text, p + k) {
      assert Folds(text[p..], k) <==> Folds(text, p + k);
    }
    EndIs(text[p..], 0, e - p);
  }

  /** The first of the names the buffer goes on with: as no name holds a newline, none reaches past the item. */
  method Search(names: seq<string>, buf: array<char>, n: nat, p: nat, e: nat) returns (r: Option<nat>)
    requires IsString(buf, n) && p <= e <= n && (e < n ==> buf[e] == '\n')
    requires OneLine(names)
    ensures r == Match(names, buf[p..e])
  {
    var k := 0;
    while k < |names|
      invariant 0 <= k <= |names|
      invariant Match(names, buf[p..e]) == (match Match(names[k..], buf[p..e]) case None => None case Some(i) => Some(i + k))
    {
      SameStart(buf[p..n], e - p, names[k]);
      assert buf[p..n][..e - p] == buf[p..e];
      if Starts(buf[p..n], names[k]) {
        return Some(k);
      }
      assert names[k..][1..] == names[k + 1..];
      k := k + 1;
    }
    r := None;
  }

  lemma SameStart(s: string, e: nat, name: string)
    requires e <= |s| && (e < |s| ==> s[e] == '\n') && '\n' !in name
    ensures Starts(s, name) <==> Starts(s[..e], name)
  {
    if e < |name| && e < |s| {
      assert name[e] in name;
      assert Lower(s[e]) != Lower(name[e]);
    }
  }

  /** Step over blanks. */
  method Skip(buf: array<char>, from: nat, e: nat) returns (q: nat)
    requires from <= e <= buf.Length
    ensures from <= q <= e && buf[q..e] == SkipBlanks(buf[from..e])
  {
    q := from;
    while q < e && (buf[q] == ' ' || buf[q] == '\t')
      invariant from <= q <= e && SkipBlanks(buf[q..e]) == SkipBlanks(buf[from..e])
    {
      assert buf[q..e][1..] == buf[q + 1..e];
      q := q + 1;
    }
  }

  /** One item, from p to e: its place in the heading, or None for one without a colon. */
  method ParseItem(buf: array<char>, n: nat, p: nat, e: nat, fields: Fields) returns (part: Option<Part>)
    requires IsString(buf, n) && p <= e <= n && (e < n ==> buf[e] == '\n')
    requires OneLine(fields.ignored) && OneLine(fields.mime)
    ensures part == Classify(buf[p..e], fields)
  {
    var found := Search(fields.ignored, buf, n, p, e);
    if found.Some? {
      return Some(Ignored);
    }
    found := Search(fields.mime, buf, n, p, e);
    if found.Some? {
      var value := ValueFrom(buf, p, |fields.mime[found.value]|, e);
      return Some(MimeField(found.value, value));
    }
    var colon := FindColon(buf, n, p, e);
    if colon.None? {
      return None;
    }
    var value := ValueFrom(buf, p, colon.value - p + 1, e);
    assert buf[p..e][..colon.value - p] == buf[p..colon.value];
    part := Some(Extension(buf[p..colon.value], value));
  }

  /** What follows the first `skip` characters of an item and the blanks after them. */
  method ValueFrom(buf: array<char>, p: nat, skip: nat, e: nat) returns (value: string)
    requires p + skip <= e <= buf.Length
    ensures value == SkipBlanks(buf[p..e][skip..])
  {
    var q := Skip(buf, p + skip, e);
    assert buf[p + skip..e] == buf[p..e][skip..];
    value := buf[q..e];
  }

  /** The colon after a field name, if it is in this item. */
  method FindColon(buf: array<char>, n: nat, p: nat, e: nat) returns (colon: Option<nat>)
    requires IsString(buf, n) && p <= e <= n && (e < n ==> buf[e] == '\n')
    ensures colon.None? ==> IndexOf(buf[p..e], ':') == e - p
    ensures colon.Some? ==> p <= colon.value < e && IndexOf(buf[p..e], ':') == colon.value - p
  {
    colon := FindChar(buf, n, p, ':');
    if colon.Some? && colon.value > e {
      colon := None;
    }
    ColonIs(buf[p..e], if colon.Some? then colon.value - p else e - p);
  }

  lemma {:induction false} ColonIs(s: string, i: nat)
    requires i <= |s| && (i < |s| ==> s[i] == ':') && forall k :: 0 <= k < i ==> s[k] != ':'
    ensures IndexOf(s, ':') == i
  {
  }

  /** The names the code has. */
  lemma FieldsAreOneLine()
    ensures OneLine(FIELDS.ignored) && OneLine(FIELDS.mime)
  {
  }

  /** parseHeaderString; None where the code goes on from a null pointer. */
  method ParseHeaderString(buf: array<char>, n: nat) returns (h: Option<Heading>)
    requires IsString(buf, n)
    modifies buf
    ensures h == Walked(WithoutCR(old(buf[..n])), FIELDS, EMPTY)
  {
    FieldsAreOneLine();
    var m := StripCR(buf, n);
    h := WalkItems(buf, m, FIELDS);
  }

  method WalkItems(buf: array<char>, n: nat, fields: Fields) returns (r: Option<Heading>)
    requires IsString(buf, n)
    requires OneLine(fields.ignored) && OneLine(fields.mime)
    ensures r == Walked(buf[..n], fields, EMPTY)
  {
    var h := EMPTY;
    var p := 0;
    ghost var goal := Walked(buf[..n], fields, EMPTY);
    assert buf[0..n] == buf[..n];
    while buf[p] != '\0'
      invariant p <= n && Walked(buf[p..n], fields, h) == goal
      decreases n - p
    {
      var pEnd := FindEnd(buf, n, p);
      if pEnd.None? {
        return None;
      }
      var part, next := NextItem(buf, n, p, pEnd.value, fields, h);
      if part.None? {
        return Some(h);
      }
      h := Fill(h, part.value);
      p := next;
    }
    r := Some(h);
  }

  /** The item from p to pEnd, and where the next one starts. */
  method NextItem(buf: array<char>, n: nat, p: nat, pEnd: nat, fields: Fields, ghost h: Heading)
    returns (part: Option<Part>, next: nat)
    requires IsString(buf, n) && p < n && p <= pEnd <= n && pEnd == p + ItemEnd(buf[p..n], 0) && !Dangling(buf[p..n])
    requires OneLine(fields.ignored) && OneLine(fields.mime)
    ensures p < next <= n
    ensures match part
            case None => Walked(buf[p..n], fields, h) == Some(h)
            case Some(x) => Walked(buf[p..n], fields, h) == Walked(buf[next..n], fields, Fill(h, x))
  {
    part := ParseItem(buf, n, p, pEnd, fields);
    next := pEnd;
    if buf[pEnd] != '\0' {
      next := pEnd + 1;
    }
    WalkedStep(buf[p..n], pEnd - p, fields, h);
    assert buf[p..n][..pEnd - p] == buf[p..pEnd];
    assert buf[next..n] == if pEnd < n then buf[p..n][pEnd - p + 1..] else [];
  }
}
