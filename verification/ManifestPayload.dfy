/** The flat rendering of a release manifest that its signature covers. */
module ManifestPayload {
  import opened Decimals
  import opened Options
  import opened Ordering
  import Dictionary
  import TextOrder

  type Schema = n: nat | n < 0x1_0000_0000
  type Size = n: nat | n < 0x1_0000_0000_0000_0000

  datatype Artifact = Artifact(url: string, sha256: string, size: Size)

  datatype Manifest = Manifest(
    schema: Schema,
    version: string,
    notesUrl: string,
    artifacts: map<string, Artifact>,
    signature: Option<string>
  )

  datatype Rendered = Payload(text: string) | Unsignable(field: string)

  datatype Field = Field(name: string, value: string)

  const HEADER := "poltertype-manifest-v1"

  // ---- What is rendered ----

  ghost predicate Broken(value: string) {
    '\n' in value || '\r' in value
  }

  ghost predicate Clean(fields: seq<Field>) {
    forall i :: 0 <= i < |fields| ==> !Broken(fields[i].value)
  }

  ghost function ArtifactFields(key: string, a: Artifact): seq<Field> {
    [Field("artifact", key), Field("url", a.url), Field("sha256", a.sha256), Field("size", Decimal(a.size))]
  }

  /** The four fields from `at` are those of one artifact. */
  ghost predicate RowAt(fields: seq<Field>, at: nat, key: string, a: Artifact) {
    && at + 4 <= |fields|
    && fields[at] == Field("artifact", key)
    && fields[at + 1] == Field("url", a.url)
    && fields[at + 2] == Field("sha256", a.sha256)
    && fields[at + 3] == Field("size", Decimal(a.size))
  }

  ghost function TableFields(keys: seq<string>, artifacts: map<string, Artifact>): (fields: seq<Field>)
    requires forall k :: k in keys ==> k in artifacts
    ensures |fields| == 4 * |keys|
  {
    if keys == [] then []
    else
      var last := keys[|keys| - 1];
      TableFields(keys[..|keys| - 1], artifacts) + ArtifactFields(last, artifacts[last])
  }

  /** The keys of the artifact table in the order a sorted map visits them. */
  ghost function KeyOrder(artifacts: map<string, Artifact>): (keys: seq<string>)
    ensures forall k :: k in keys <==> k in artifacts
    ensures Ascending(TextLess, keys)
  {
    TextLessIsTotal();
    Listing(TextLess, artifacts.Keys)
  }

  ghost function HeadFields(m: Manifest): (fields: seq<Field>)
    ensures |fields| == 3
  {
    [Field("schema", Decimal(m.schema)), Field("version", m.version), Field("notes_url", m.notesUrl)]
  }

  ghost function AllFields(m: Manifest): seq<Field> {
    HeadFields(m) + TableFields(KeyOrder(m.artifacts), m.artifacts)
  }

  /** Entry `i` of the table occupies the four fields from position 4 * `i`. */
  lemma {:induction false} TableFieldsAt(keys: seq<string>, artifacts: map<string, Artifact>, i: nat)
    requires forall k :: k in keys ==> k in artifacts
    requires i < |keys|
    ensures RowAt(TableFields(keys, artifacts), 4 * i, keys[i], artifacts[keys[i]])
  {
    hide Decimal;
    var init := keys[..|keys| - 1];
    if i < |init| {
      TableFieldsAt(init, artifacts, i);
    }
  }

  ghost function LineOf(f: Field): string {
    f.name + "=" + f.value
  }

  /** The header line, then one line a field. */
  ghost function PayloadLines(fields: seq<Field>): (lines: seq<string>)
    ensures |lines| == |fields| + 1 && lines[0] == HEADER
    ensures forall i :: 0 <= i < |fields| ==> lines[i + 1] == LineOf(fields[i])
  {
    [HEADER] + seq(|fields|, i requires 0 <= i < |fields| => LineOf(fields[i]))
  }

  function Unlines(lines: seq<string>): string {
    if lines == [] then [] else Unlines(lines[..|lines| - 1]) + lines[|lines| - 1] + ['\n']
  }

  /** `r` is the whole payload, or names the first field that holds a line break. */
  ghost predicate Renders(fields: seq<Field>, r: Rendered) {
    if exists i :: 0 <= i < |fields| && Broken(fields[i].value) then
      exists i :: 0 <= i < |fields| && Broken(fields[i].value)
                  && (forall j :: 0 <= j < i ==> !Broken(fields[j].value))
                  && r == Unsignable(fields[i].name)
    else
      r == Payload(Unlines(PayloadLines(fields)))
  }

  lemma RendersOnce(fields: seq<Field>, r: Rendered, other: Rendered)
    requires Renders(fields, r) && Renders(fields, other)
    ensures r == other
  {
  }

  lemma FirstBreakSettles(fields: seq<Field>, at: nat)
    requires at < |fields| && Clean(fields[..at]) && Broken(fields[at].value)
    ensures Renders(fields, Unsignable(fields[at].name))
  {
    forall j | 0 <= j < at ensures !Broken(fields[j].value) {
      assert fields[j] == fields[..at][j];
    }
  }

  lemma CleanRenders(fields: seq<Field>)
    requires Clean(fields)
    ensures Renders(fields, Payload(Unlines(PayloadLines(fields))))
  {
  }

  // ---- The printer ----

  class PayloadWriter {
    var text: string
    ghost var written: seq<Field>

    ghost predicate Valid()
      reads this
    {
      text == Unlines(PayloadLines(written)) && Clean(written)
    }

    lemma ValidText()
      requires Valid()
      ensures text == Unlines(PayloadLines(written)) && Clean(written)
    {
    }

    constructor ()
      ensures Valid() && written == []
    {
      text := HEADER + ['\n'];
      written := [];
      new;
      assert PayloadLines([]) == [HEADER];
      assert Unlines([HEADER]) == HEADER + ['\n'] by {
        assert [HEADER][..0] == [];
      }
    }

    /** Appends one line; `goal` is the field list being rendered, of which `written` is a prefix. */
    method PushField(name: string, value: string, ghost goal: seq<Field>) returns (ok: bool)
      requires Valid() && |written| < |goal| && written == goal[..|written|]
      requires goal[|written|] == Field(name, value)
      modifies this
      ensures ok <==> !Broken(value)
      ensures ok ==> Valid() && |written| == |old(written)| + 1 && written == goal[..|written|]
      ensures !ok ==> Renders(goal, Unsignable(name))
    {
      if '\n' in value || '\r' in value {
        FirstBreakSettles(goal, |written|);
        return false;
      }
      hide Unlines, Renders, PayloadLines;
      text := text + name;
      text := text + ['='];
      text := text + value;
      text := text + ['\n'];
      ghost var before, f := written, Field(name, value);
      written := written + [f];
      PushedLine(before, f);
      AppendsLine(old(text), text, f);
      return true;
    }

    /** The three lines that open every payload, or the name of the first that will not go through. */
    method PushHead(m: Manifest) returns (broken: Option<string>)
      requires Valid() && written == []
      modifies this
      ensures broken == None ==> Valid() && |written| == 3 && written == AllFields(m)[..3]
      ensures broken.Some? ==> Renders(AllFields(m), Unsignable(broken.value))
    {
      ghost var goal := AllFields(m);
      AllFieldsHead(m);
      hide Renders, Valid, AllFields, Decimal, Broken;
      var ok := PushField("schema", Decimal(m.schema), goal);
      if !ok {
        return Some("schema");
      }
      ok := PushField("version", m.version, goal);
      if !ok {
        return Some("version");
      }
      ok := PushField("notes_url", m.notesUrl, goal);
      if !ok {
        return Some("notes_url");
      }
      return None;
    }

    /** The four lines of one artifact, or the name of the first that will not go through. */
    method PushArtifact(key: string, a: Artifact, ghost goal: seq<Field>) returns (broken: Option<string>)
      requires Valid() && RowAt(goal, |written|, key, a) && written == goal[..|written|]
      modifies this
      ensures broken == None ==> Valid() && |written| == |old(written)| + 4 && written == goal[..|written|]
      ensures broken.Some? ==> Renders(goal, Unsignable(broken.value))
    {
      hide Renders, Valid, Decimal, Broken;
      var ok := PushField("artifact", key, goal);
      if !ok {
        return Some("artifact");
      }
      ok := PushField("url", a.url, goal);
      if !ok {
        return Some("url");
      }
      ok := PushField("sha256", a.sha256, goal);
      if !ok {
        return Some("sha256");
      }
      ok := PushField("size", Decimal(a.size), goal);
      if !ok {
        return Some("size");
      }
      return None;
    }
  }

  lemma AppendsLine(before: string, after: string, f: Field)
    requires after == before + f.name + ['='] + f.value + ['\n']
    ensures after == before + LineOf(f) + ['\n']
  {
  }

  lemma PushedLine(before: seq<Field>, f: Field)
    ensures Unlines(PayloadLines(before + [f])) == Unlines(PayloadLines(before)) + LineOf(f) + ['\n']
  {
    var lines := PayloadLines(before + [f]);
    assert lines[..|lines| - 1] == PayloadLines(before);
  }

  /** Collects the keys into their sorted order, whatever order they arrive in. */
  method SortKeys(iteration: seq<string>) returns (sorted: seq<string>)
    requires forall i, j :: 0 <= i < j < |iteration| ==> iteration[i] != iteration[j]
    ensures Ascending(TextLess, sorted)
    ensures forall k :: k in sorted <==> k in iteration
  {
    TextLessIsTotal();
    sorted := [];
    for i := 0 to |iteration|
      invariant Ascending(TextLess, sorted)
      invariant forall k :: k in sorted <==> k in iteration[..i]
    {
      assert iteration[i] !in iteration[..i];
      InsertedIsAscending(TextLess, iteration[i], sorted);
      InsertedKeepsElements(TextLess, iteration[i], sorted);
      sorted := Inserted(TextLess, iteration[i], sorted);
    }
    assert iteration[..|iteration|] == iteration;
  }

  /**
   * Renders `m`, visiting its artifacts in whatever order `iteration` hands them over:
   * the outcome depends on the manifest alone.
   */
  method SigningPayload(m: Manifest, iteration: seq<string>) returns (r: Rendered)
    requires forall k :: k in iteration <==> k in m.artifacts
    requires forall i, j :: 0 <= i < j < |iteration| ==> iteration[i] != iteration[j]
    ensures Renders(AllFields(m), r)
  {
    ghost var fields := AllFields(m);
    AllFieldsHead(m);
    hide *;
    var out := new PayloadWriter();
    var broken := out.PushHead(m);
    if broken.Some? {
      return Unsignable(broken.value);
    }
    var sorted := SortKeys(iteration);
    SortedIsKeyOrder(sorted, m.artifacts);
    for i := 0 to |sorted|
      invariant out.Valid() && fresh(out)
      invariant |out.written| == 3 + 4 * i && out.written == fields[..3 + 4 * i]
    {
      AllFieldsAt(m, i);
      broken := out.PushArtifact(sorted[i], m.artifacts[sorted[i]], fields);
      if broken.Some? {
        return Unsignable(broken.value);
      }
    }
    assert out.written == fields;
    out.ValidText();
    CleanRenders(fields);
    r := Payload(out.text);
  }

  lemma AllFieldsHead(m: Manifest)
    ensures |AllFields(m)| == 3 + 4 * |KeyOrder(m.artifacts)|
    ensures AllFields(m)[0] == Field("schema", Decimal(m.schema))
    ensures AllFields(m)[1] == Field("version", m.version)
    ensures AllFields(m)[2] == Field("notes_url", m.notesUrl)
  {
    hide Decimal, TableFields;
  }

  lemma AllFieldsAt(m: Manifest, i: nat)
    requires i < |KeyOrder(m.artifacts)|
    ensures var key := KeyOrder(m.artifacts)[i];
            RowAt(AllFields(m), 3 + 4 * i, key, m.artifacts[key])
  {
    hide HeadFields, TableFields, RowAt, TextLess, Ascending;
    TableFieldsAt(KeyOrder(m.artifacts), m.artifacts, i);
    var key := KeyOrder(m.artifacts)[i];
    RowAtShifts(HeadFields(m), TableFields(KeyOrder(m.artifacts), m.artifacts), 4 * i, key, m.artifacts[key]);
  }

  ghost predicate BeginsArtifact(f: Field) {
    f.name == "artifact"
  }

  /**
   * The artifacts stand in the order of their keys' bytes: of two neighbours the first key is a proper
   * beginning of the second, or has the smaller character where the two part.
   */
  lemma ArtifactsInByteOrder(m: Manifest, i: nat)
    requires i + 1 < |KeyOrder(m.artifacts)|
    ensures 3 + 4 * (i + 1) < |AllFields(m)|
    ensures var here, next := AllFields(m)[3 + 4 * i], AllFields(m)[3 + 4 * (i + 1)];
            && BeginsArtifact(here) && BeginsArtifact(next)
            && TextOrder.Precedes(here.value, next.value)
            && TextOrder.BytesLess(Dictionary.EncodeAll(here.value), Dictionary.EncodeAll(next.value))
  {
    hide *;
    ArtifactAt(m, i);
    ArtifactAt(m, i + 1);
    KeysInByteOrder(m.artifacts, i);
  }

  lemma ArtifactAt(m: Manifest, i: nat)
    requires i < |KeyOrder(m.artifacts)|
    ensures 3 + 4 * i < |AllFields(m)|
    ensures BeginsArtifact(AllFields(m)[3 + 4 * i]) && AllFields(m)[3 + 4 * i].value == KeyOrder(m.artifacts)[i]
  {
    AllFieldsAt(m, i);
    hide AllFields, Decimal;
  }

  lemma KeysInByteOrder(artifacts: map<string, Artifact>, i: nat)
    requires i + 1 < |KeyOrder(artifacts)|
    ensures var here, next := KeyOrder(artifacts)[i], KeyOrder(artifacts)[i + 1];
            && TextOrder.Precedes(here, next)
            && TextOrder.BytesLess(Dictionary.EncodeAll(here), Dictionary.EncodeAll(next))
  {
    hide TextLess, Dictionary.EncodeAll, TextOrder.Precedes, TextOrder.BytesLess;
    var keys := KeyOrder(artifacts);
    assert TextLess(keys[i], keys[i + 1]);
    hide *;
    TextOrder.TextLessIff(keys[i], keys[i + 1]);
    TextOrder.BytesCompareAlike(keys[i], keys[i + 1]);
  }

  lemma RowAtShifts(head: seq<Field>, table: seq<Field>, at: nat, key: string, a: Artifact)
    requires RowAt(table, at, key, a)
    ensures RowAt(head + table, |head| + at, key, a)
  {
    hide Decimal;
  }

  lemma SortedIsKeyOrder(sorted: seq<string>, artifacts: map<string, Artifact>)
    requires Ascending(TextLess, sorted)
    requires forall k :: k in sorted <==> k in artifacts
    ensures sorted == KeyOrder(artifacts)
  {
    TextLessIsTotal();
    AscendingIsUnique(TextLess, sorted, KeyOrder(artifacts));
  }

  // ---- The reader ----

  /** Where the first line of `text` ends, or its length when it never does. */
  function LineEnd(text: string): (k: nat)
    ensures k <= |text|
    ensures '\n' !in text[..k]
    ensures k < |text| ==> text[k] == '\n'
  {
    if text == [] || text[0] == '\n' then 0
    else
      var k := LineEnd(text[1..]);
      assert text[..k + 1] == [text[0]] + text[1..][..k];
      k + 1
  }

  /** The lines of a text whose every line is ended. */
  function ReadLines(text: string): Option<seq<string>>
    decreases |text|
  {
    if text == [] then Some([])
    else
      var k := LineEnd(text);
      if k == |text| then None
      else
        match ReadLines(text[k + 1..])
        case None => None
        case Some(rest) => Some([text[..k]] + rest)
  }

  /** The value of a `name=value` line. */
  function ReadField(name: string, line: string): Option<string> {
    if name + "=" <= line && '\n' !in line[|name| + 1..] && '\r' !in line[|name| + 1..]
    then Some(line[|name| + 1..])
    else None
  }

  function ReadDecimal(text: string, bound: nat): Option<nat> {
    match DecimalValue(text)
    case None => None
    case Some(n) => if n < bound && Decimal(n) == text then Some(n) else None
  }

  /** The table entry on the four lines from `i`. */
  function ReadRow(lines: seq<string>, i: nat): Option<(string, Artifact)>
    requires i + 4 <= |lines|
  {
    match ReadField("artifact", lines[i]) case None => None case Some(key) =>
    match ReadField("url", lines[i + 1]) case None => None case Some(url) =>
    match ReadField("sha256", lines[i + 2]) case None => None case Some(sha256) =>
    match ReadField("size", lines[i + 3]) case None => None case Some(digits) =>
    match ReadDecimal(digits, 0x1_0000_0000_0000_0000) case None => None case Some(size) =>
    Some((key, Artifact(url, sha256, size)))
  }

  /** The artifact table from line `i` on, whose keys must ascend past `last`. */
  function ReadTable(lines: seq<string>, i: nat, last: Option<string>): Option<map<string, Artifact>>
    requires i <= |lines|
    decreases |lines| - i
  {
    if i == |lines| then Some(map[])
    else if i + 4 > |lines| then None
    else
      match ReadRow(lines, i) case None => None case Some((key, a)) =>
      if last.Some? && !TextLess(last.value, key) then None
      else
        match ReadTable(lines, i + 4, Some(key)) case None => None case Some(table) =>
        Some(table[key := a])
  }

  function ReadManifest(lines: seq<string>): Option<Manifest> {
    if |lines| < 4 || lines[0] != HEADER then None
    else
      match ReadField("schema", lines[1]) case None => None case Some(digits) =>
      match ReadDecimal(digits, 0x1_0000_0000) case None => None case Some(schema) =>
      match ReadField("version", lines[2]) case None => None case Some(version) =>
      match ReadField("notes_url", lines[3]) case None => None case Some(notesUrl) =>
      match ReadTable(lines, 4, None) case None => None case Some(artifacts) =>
      Some(Manifest(schema, version, notesUrl, artifacts, None))
  }

  /** Everything a payload says: the manifest without its signature. */
  function ReadPayload(text: string): Option<Manifest> {
    match ReadLines(text)
    case None => None
    case Some(lines) => ReadManifest(lines)
  }

  // ---- The reader undoes the printer ----

  lemma {:induction false} LineEndFound(value: string, rest: string)
    requires '\n' !in value
    ensures LineEnd(value + ['\n'] + rest) == |value|
  {
    if value != [] {
      LineEndFound(value[1..], rest);
      assert (value + ['\n'] + rest)[1..] == value[1..] + ['\n'] + rest;
    }
  }

  lemma {:induction false} UnlinesCons(line: string, rest: seq<string>)
    ensures Unlines([line] + rest) == line + ['\n'] + Unlines(rest)
  {
    if rest == [] {
      assert [line] + rest == [line] && [line][..0] == [];
    } else {
      UnlinesCons(line, rest[..|rest| - 1]);
      assert ([line] + rest)[..|rest|] == [line] + rest[..|rest| - 1];
    }
  }

  lemma {:induction false} ReadLinesUndoesUnlines(lines: seq<string>)
    requires forall i :: 0 <= i < |lines| ==> '\n' !in lines[i]
    ensures ReadLines(Unlines(lines)) == Some(lines)
  {
    if lines != [] {
      var line, rest := lines[0], lines[1..];
      ReadLinesUndoesUnlines(rest);
      UnlinesCons(line, rest);
      LineEndFound(line, Unlines(rest));
      assert [line] + rest == lines;
      var text := line + ['\n'] + Unlines(rest);
      assert text[..|line|] == line && text[|line| + 1..] == Unlines(rest);
    }
  }

  lemma {:induction false} UnlinesUndoesReadLines(text: string)
    requires ReadLines(text).Some?
    ensures Unlines(ReadLines(text).value) == text
    decreases |text|
  {
    if text == [] {
      assert ReadLines(text).value == [];
    } else {
      var (line, rest) := FirstLine(text);
      hide ReadLines, Unlines;
      UnlinesUndoesReadLines(rest);
      UnlinesCons(line, ReadLines(rest).value);
    }
  }

  /** A readable text is its first line, a line break, and a readable rest. */
  ghost function FirstLine(text: string): (r: (string, string))
    requires text != [] && ReadLines(text).Some?
    ensures text == r.0 + ['\n'] + r.1 && |r.1| < |text|
    ensures ReadLines(r.1).Some? && ReadLines(text).value == [r.0] + ReadLines(r.1).value
  {
    var k := LineEnd(text);
    assert text == text[..k] + ['\n'] + text[k + 1..];
    (text[..k], text[k + 1..])
  }

  lemma ReadFieldUndoesLine(f: Field)
    requires !Broken(f.value)
    ensures ReadField(f.name, LineOf(f)) == Some(f.value)
  {
    assert LineOf(f)[..|f.name| + 1] == f.name + "=";
    assert LineOf(f)[|f.name| + 1..] == f.value;
  }

  /** The four lines from `i` are those of one artifact, none of its values broken. */
  ghost predicate LinesAt(lines: seq<string>, i: nat, key: string, a: Artifact) {
    && i + 4 <= |lines|
    && lines[i] == LineOf(Field("artifact", key)) && !Broken(key)
    && lines[i + 1] == LineOf(Field("url", a.url)) && !Broken(a.url)
    && lines[i + 2] == LineOf(Field("sha256", a.sha256)) && !Broken(a.sha256)
    && lines[i + 3] == LineOf(Field("size", Decimal(a.size))) && !Broken(Decimal(a.size))
  }

  /** A row of clean fields lands on a row of lines. */
  lemma RowOfLines(fields: seq<Field>, at: nat, key: string, a: Artifact)
    requires Clean(fields) && RowAt(fields, at, key, a)
    ensures LinesAt(PayloadLines(fields), at + 1, key, a)
  {
    hide Decimal, LineOf;
  }

  lemma ReadRowUndoesLines(lines: seq<string>, i: nat, key: string, a: Artifact)
    requires LinesAt(lines, i, key, a)
    ensures ReadRow(lines, i) == Some((key, a))
  {
    hide LineOf, ReadField, Decimal, DecimalValue, Broken;
    ReadFieldUndoesLine(Field("artifact", key));
    ReadFieldUndoesLine(Field("url", a.url));
    ReadFieldUndoesLine(Field("sha256", a.sha256));
    ReadFieldUndoesLine(Field("size", Decimal(a.size)));
    DecimalRoundTrip(a.size);
  }

  lemma RowReads(m: Manifest, i: nat)
    requires Clean(AllFields(m)) && i < |KeyOrder(m.artifacts)|
    ensures 8 + 4 * i <= |PayloadLines(AllFields(m))|
    ensures var key := KeyOrder(m.artifacts)[i];
            ReadRow(PayloadLines(AllFields(m)), 4 + 4 * i) == Some((key, m.artifacts[key]))
  {
    hide *;
    var key := KeyOrder(m.artifacts)[i];
    AllFieldsHead(m);
    AllFieldsAt(m, i);
    RowOfLines(AllFields(m), 3 + 4 * i, key, m.artifacts[key]);
    ReadRowUndoesLines(PayloadLines(AllFields(m)), 4 + 4 * i, key, m.artifacts[key]);
  }

  /** The artifacts of the keys from the `i`th on. */
  ghost function ArtifactsFrom(artifacts: map<string, Artifact>, keys: seq<string>, i: nat): map<string, Artifact>
    requires i <= |keys| && forall k :: k in keys ==> k in artifacts
  {
    map k | k in keys[i..] :: artifacts[k]
  }

  /** Reading from entry `i` on recovers the artifacts of every later key. */
  lemma {:induction false} ReadTableUndoesLines(m: Manifest, i: nat, last: Option<string>)
    requires Clean(AllFields(m)) && i <= |KeyOrder(m.artifacts)|
    requires last.Some? && i < |KeyOrder(m.artifacts)| ==> TextLess(last.value, KeyOrder(m.artifacts)[i])
    ensures 4 + 4 * i <= |PayloadLines(AllFields(m))|
    ensures ReadTable(PayloadLines(AllFields(m)), 4 + 4 * i, last)
         == Some(ArtifactsFrom(m.artifacts, KeyOrder(m.artifacts), i))
    decreases |KeyOrder(m.artifacts)| - i
  {
    hide *;
    var keys := KeyOrder(m.artifacts);
    LinesLength(m);
    if i == |keys| {
      NoMoreKeys(keys, m.artifacts);
      TableEnds(PayloadLines(AllFields(m)), last);
    } else {
      RowReads(m, i);
      NextKeyIsGreater(m.artifacts, i);
      ReadTableUndoesLines(m, i + 1, Some(keys[i]));
      ReadTableStep(PayloadLines(AllFields(m)), 4 + 4 * i, last, keys[i], m.artifacts[keys[i]]);
      OneMoreKey(keys, m.artifacts, i);
    }
  }

  lemma LinesLength(m: Manifest)
    ensures |PayloadLines(AllFields(m))| == 4 + 4 * |KeyOrder(m.artifacts)|
  {
    hide AllFields, LineOf, KeyOrder;
    AllFieldsHead(m);
  }

  lemma NextKeyIsGreater(artifacts: map<string, Artifact>, i: nat)
    requires i < |KeyOrder(artifacts)|
    ensures i + 1 < |KeyOrder(artifacts)| ==> TextLess(KeyOrder(artifacts)[i], KeyOrder(artifacts)[i + 1])
  {
    hide KeyOrder, TextLess;
  }

  lemma TableEnds(lines: seq<string>, last: Option<string>)
    ensures ReadTable(lines, |lines|, last) == Some(map[])
  {
  }

  lemma ReadTableStep(lines: seq<string>, i: nat, last: Option<string>, key: string, a: Artifact)
    requires i + 4 <= |lines| && ReadRow(lines, i) == Some((key, a))
    requires last.Some? ==> TextLess(last.value, key)
    ensures ReadTable(lines, i, last)
         == match ReadTable(lines, i + 4, Some(key)) case None => None case Some(table) => Some(table[key := a])
  {
    hide ReadRow, TextLess;
  }

  lemma NoMoreKeys(keys: seq<string>, artifacts: map<string, Artifact>)
    requires forall k :: k in keys ==> k in artifacts
    ensures ArtifactsFrom(artifacts, keys, |keys|) == map[]
  {
    assert keys[|keys|..] == [];
  }

  lemma OneMoreKey(keys: seq<string>, artifacts: map<string, Artifact>, i: nat)
    requires i < |keys| && forall k :: k in keys ==> k in artifacts
    ensures ArtifactsFrom(artifacts, keys, i) == ArtifactsFrom(artifacts, keys, i + 1)[keys[i] := artifacts[keys[i]]]
  {
    assert keys[i..] == [keys[i]] + keys[i + 1..];
  }

  lemma CleanLines(fields: seq<Field>)
    requires Clean(fields)
    requires forall i :: 0 <= i < |fields| ==> '\n' !in fields[i].name
    ensures forall i :: 0 <= i < |fields| + 1 ==> '\n' !in PayloadLines(fields)[i]
  {
    forall i | 0 <= i < |fields| + 1 ensures '\n' !in PayloadLines(fields)[i] {
      if i > 0 {
        assert PayloadLines(fields)[i - 1 + 1] == LineOf(fields[i - 1]);
      }
    }
  }

  lemma {:induction false} TableNamesClean(keys: seq<string>, artifacts: map<string, Artifact>)
    requires forall k :: k in keys ==> k in artifacts
    ensures forall i :: 0 <= i < 4 * |keys| ==> '\n' !in TableFields(keys, artifacts)[i].name
  {
    hide Decimal;
    if keys != [] {
      TableNamesClean(keys[..|keys| - 1], artifacts);
    }
  }

  lemma RenderedText(fields: seq<Field>, text: string)
    requires Renders(fields, Payload(text))
    ensures Clean(fields) && text == Unlines(PayloadLines(fields))
  {
  }

  lemma AllNamesClean(m: Manifest)
    ensures forall i :: 0 <= i < |AllFields(m)| ==> '\n' !in AllFields(m)[i].name
  {
    hide TableFields, Decimal;
    TableNamesClean(KeyOrder(m.artifacts), m.artifacts);
  }

  lemma HeadReads(m: Manifest)
    requires Clean(AllFields(m))
    ensures var lines := PayloadLines(AllFields(m));
            && |lines| >= 4
            && ReadField("schema", lines[1]) == Some(Decimal(m.schema))
            && ReadField("version", lines[2]) == Some(m.version)
            && ReadField("notes_url", lines[3]) == Some(m.notesUrl)
  {
    AllFieldsHead(m);
    hide AllFields, ReadField, LineOf, Decimal, Broken;
    var fields := AllFields(m);
    ReadFieldUndoesLine(fields[0]);
    ReadFieldUndoesLine(fields[1]);
    ReadFieldUndoesLine(fields[2]);
  }

  /** Whatever the printer emits, the reader gives back, down to the last artifact. */
  lemma PayloadReadsBack(m: Manifest, text: string)
    requires Renders(AllFields(m), Payload(text))
    ensures ReadPayload(text) == Some(m.(signature := None))
  {
    hide Renders, Decimal, DecimalValue, ReadField, ReadTable, Unlines, PayloadLines, ReadLines, AllFields;
    RenderedText(AllFields(m), text);
    AllNamesClean(m);
    CleanLines(AllFields(m));
    ReadLinesUndoesUnlines(PayloadLines(AllFields(m)));
    HeadReads(m);
    DecimalRoundTrip(m.schema);
    ReadTableUndoesLines(m, 0, None);
    WholeTable(m);
  }

  lemma WholeTable(m: Manifest)
    ensures ArtifactsFrom(m.artifacts, KeyOrder(m.artifacts), 0) == m.artifacts
  {
  }

  /** One payload, one manifest: two manifests that render alike differ at most in their signature. */
  lemma PayloadIsUnambiguous(m: Manifest, other: Manifest, text: string)
    requires Renders(AllFields(m), Payload(text))
    requires Renders(AllFields(other), Payload(text))
    ensures m.(signature := None) == other.(signature := None)
  {
    PayloadReadsBack(m, text);
    PayloadReadsBack(other, text);
  }

  // ---- The printer undoes the reader ----

  lemma ReadFieldIsLine(name: string, line: string)
    requires ReadField(name, line).Some?
    ensures var value := ReadField(name, line).value;
            !Broken(value) && line == LineOf(Field(name, value))
  {
  }

  lemma ReadRowIsLines(lines: seq<string>, i: nat)
    requires i + 4 <= |lines| && ReadRow(lines, i).Some?
    ensures var (key, a) := ReadRow(lines, i).value;
            LinesAt(lines, i, key, a)
  {
    hide LineOf, ReadField, Decimal, DecimalValue, Broken;
    ReadFieldIsLine("artifact", lines[i]);
    ReadFieldIsLine("url", lines[i + 1]);
    ReadFieldIsLine("sha256", lines[i + 2]);
    ReadFieldIsLine("size", lines[i + 3]);
  }

  /** `lines[i..]` is the rows of `keys`, one after the other. */
  ghost predicate RowsFrom(lines: seq<string>, i: nat, keys: seq<string>, table: map<string, Artifact>) {
    && |lines| == i + 4 * |keys|
    && forall j :: 0 <= j < |keys| ==> keys[j] in table && LinesAt(lines, i + 4 * j, keys[j], table[keys[j]])
  }

  lemma RowsCons(lines: seq<string>, i: nat, key: string, a: Artifact, tail: seq<string>, table: map<string, Artifact>)
    requires LinesAt(lines, i, key, a) && RowsFrom(lines, i + 4, tail, table) && key !in tail
    ensures RowsFrom(lines, i, [key] + tail, table[key := a])
  {
    hide LinesAt;
    var keys := [key] + tail;
    forall j | 0 <= j < |keys|
      ensures keys[j] in table[key := a] && LinesAt(lines, i + 4 * j, keys[j], table[key := a][keys[j]])
    {
      if j > 0 {
        assert keys[j] == tail[j - 1];
        assert LinesAt(lines, i + 4 + 4 * (j - 1), tail[j - 1], table[tail[j - 1]]);
      }
    }
  }

  /** The keys a table was read in, in reading order. */
  lemma {:induction false} ReadTableIsLines(lines: seq<string>, i: nat, last: Option<string>)
    returns (keys: seq<string>)
    requires i <= |lines| && ReadTable(lines, i, last).Some?
    ensures RowsFrom(lines, i, keys, ReadTable(lines, i, last).value)
    ensures forall k :: k in keys <==> k in ReadTable(lines, i, last).value
    ensures Ascending(TextLess, keys)
    ensures last.Some? ==> forall k :: k in keys ==> TextLess(last.value, k)
    decreases |lines| - i
  {
    if i == |lines| {
      return [];
    }
    hide ReadRow, LinesAt, TextLess, RowsFrom, Ascending;
    var (key, a) := ReadRow(lines, i).value;
    ReadRowIsLines(lines, i);
    var tail := ReadTableIsLines(lines, i + 4, Some(key));
    AscendingCons(key, tail);
    RowsCons(lines, i, key, a, tail, ReadTable(lines, i + 4, Some(key)).value);
    keys := [key] + tail;
    if last.Some? {
      forall k | k in tail ensures TextLess(last.value, k) {
        TextLessTransitive(last.value, key, k);
      }
    }
  }

  lemma AscendingCons(key: string, tail: seq<string>)
    requires Ascending(TextLess, tail) && forall k :: k in tail ==> TextLess(key, k)
    ensures Ascending(TextLess, [key] + tail)
    ensures key !in tail
  {
    hide TextLess;
    TextLessIrreflexive(key);
  }

  lemma HeadIsLines(lines: seq<string>)
    requires ReadManifest(lines).Some?
    ensures var m := ReadManifest(lines).value;
            && lines[0] == HEADER
            && lines[1] == LineOf(Field("schema", Decimal(m.schema))) && !Broken(Decimal(m.schema))
            && lines[2] == LineOf(Field("version", m.version)) && !Broken(m.version)
            && lines[3] == LineOf(Field("notes_url", m.notesUrl)) && !Broken(m.notesUrl)
  {
    hide LineOf, ReadField, Decimal, DecimalValue, ReadTable, Broken;
    ReadFieldIsLine("schema", lines[1]);
    ReadFieldIsLine("version", lines[2]);
    ReadFieldIsLine("notes_url", lines[3]);
  }

  lemma RowsFromAt(lines: seq<string>, keys: seq<string>, table: map<string, Artifact>)
    requires RowsFrom(lines, 4, keys, table)
    ensures |lines| == 4 + 4 * |keys|
    ensures forall j :: 0 <= j < |keys| ==> keys[j] in table && LinesAt(lines, 4 + 4 * j, keys[j], table[keys[j]])
  {
    hide LinesAt;
  }

  /** Field `n` of the manifest that was read is clean, and it is line `n` + 1. */
  lemma FieldIsLine(lines: seq<string>, keys: seq<string>, n: nat)
    requires ReadManifest(lines).Some?
    requires keys == KeyOrder(ReadManifest(lines).value.artifacts)
    requires RowsFrom(lines, 4, keys, ReadManifest(lines).value.artifacts)
    requires n < |AllFields(ReadManifest(lines).value)|
    ensures |lines| == |AllFields(ReadManifest(lines).value)| + 1
    ensures var f := AllFields(ReadManifest(lines).value)[n];
            !Broken(f.value) && lines[n + 1] == LineOf(f)
  {
    hide *;
    var m := ReadManifest(lines).value;
    HeadIsLines(lines);
    AllFieldsHead(m);
    RowsFromAt(lines, keys, m.artifacts);
    if n >= 3 {
      var j := (n - 3) / 4;
      AllFieldsAt(m, j);
      RowLine(AllFields(m), lines, 3 + 4 * j, keys[j], m.artifacts[keys[j]], (n - 3) % 4);
    }
  }

  lemma RowLine(fields: seq<Field>, lines: seq<string>, at: nat, key: string, a: Artifact, r: nat)
    requires RowAt(fields, at, key, a) && LinesAt(lines, at + 1, key, a) && r < 4
    ensures at + r < |fields| && at + 1 + r < |lines|
    ensures !Broken(fields[at + r].value) && lines[at + 1 + r] == LineOf(fields[at + r])
  {
    hide LineOf, Broken, Decimal;
  }

  lemma ManifestIsLines(lines: seq<string>)
    requires ReadManifest(lines).Some?
    ensures lines == PayloadLines(AllFields(ReadManifest(lines).value))
    ensures Clean(AllFields(ReadManifest(lines).value))
  {
    var m := ReadManifest(lines).value;
    assert ReadTable(lines, 4, None) == Some(m.artifacts);
    hide *;
    var keys := ReadTableIsLines(lines, 4, None);
    SortedIsKeyOrder(keys, m.artifacts);
    HeadIsLines(lines);
    AllFieldsHead(m);
    forall n | 0 <= n < |AllFields(m)|
      ensures !Broken(AllFields(m)[n].value) && lines[n + 1] == LineOf(AllFields(m)[n])
    {
      FieldIsLine(lines, keys, n);
    }
    FieldIsLine(lines, keys, 0);
    LinesMatch(lines, AllFields(m));
  }

  lemma LinesMatch(lines: seq<string>, fields: seq<Field>)
    requires |lines| == |fields| + 1 && lines[0] == HEADER
    requires forall n :: 0 <= n < |fields| ==> !Broken(fields[n].value) && lines[n + 1] == LineOf(fields[n])
    ensures lines == PayloadLines(fields) && Clean(fields)
  {
    hide LineOf, Broken;
  }

  /** Nothing else reads back: an accepted text is exactly what the printer emits for what was read. */
  lemma ReadPayloadIsCanonical(text: string)
    requires ReadPayload(text).Some?
    ensures Renders(AllFields(ReadPayload(text).value), Payload(text))
  {
    hide ReadManifest, AllFields, Renders, ReadLines, Unlines, PayloadLines, Clean;
    UnlinesUndoesReadLines(text);
    ManifestIsLines(ReadLines(text).value);
    CleanRenders(AllFields(ReadPayload(text).value));
  }

  /** Why a line break is fatal: left in, it lets two manifests share one payload. */
  lemma LineBreaksWouldBeAmbiguous() returns (m: Manifest, other: Manifest)
    ensures m.version != other.version
    ensures Unlines(PayloadLines(AllFields(m))) == Unlines(PayloadLines(AllFields(other)))
  {
    hide Decimal, Unlines, PayloadLines, AllFields;
    m := Manifest(1, "1\nnotes_url=x", "y", map[], None);
    other := Manifest(1, "1", "x\nnotes_url=y", map[], None);
    TwoHeadLines(m);
    TwoHeadLines(other);
    assert |m.version| != |other.version|;
    assert LineOf(Field("version", m.version)) + ['\n'] + LineOf(Field("notes_url", m.notesUrl))
        == LineOf(Field("version", other.version)) + ['\n'] + LineOf(Field("notes_url", other.notesUrl));
  }

  lemma TwoHeadLines(m: Manifest)
    requires m.artifacts == map[]
    ensures Unlines(PayloadLines(AllFields(m)))
         == Unlines([HEADER, LineOf(Field("schema", Decimal(m.schema)))])
            + (LineOf(Field("version", m.version)) + ['\n'] + LineOf(Field("notes_url", m.notesUrl))) + ['\n']
  {
    SortedIsKeyOrder([], m.artifacts);
    var lines := PayloadLines(AllFields(m));
    hide LineOf, Decimal;
    assert lines[..3][..2] == [HEADER, LineOf(Field("schema", Decimal(m.schema)))];
  }
}
