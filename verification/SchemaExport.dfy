/** renderDatabaseSchema (internal/server/server.go): the exported SQL file, and splitting it again. */
module SchemaExport {
  import opened SqlText
  import opened SqlLexer
  import opened SqlSplit
  import opened SqlStability
  import opened SqlResplit
  import opened SqlJoin
  import opened SqlKinds
  import opened SqlRewrite

  datatype SchemaObject = SchemaObject(name: string, engine: string, statement: string)

  datatype DatabaseSchema = DatabaseSchema(databaseStatement: string, objects: seq<SchemaObject>)

  // ---------------------------------------------------------------- the text

  /** singleLineComment */
  function SingleLine(v: string): (r: string)
    ensures '\n' !in r
  {
    if v == "" then "" else [if v[0] == '\r' || v[0] == '\n' then ' ' else v[0]] + SingleLine(v[1..])
  }

  function Line(v: string): string { "--" + (v + "\n") }

  /** A definition, closed by exactly one semicolon. */
  function Ddl(statement: string): string { DropSemicolon(TrimSpace(statement)) + (";" + "\n\n") }

  function Header(cluster: string, database: string, stamp: string): string {
    Line(" ClickHouse database schema export")
    + (Line(" Cluster: " + SingleLine(cluster))
    + (Line(" Database: " + SingleLine(database))
    + (Line(" Generated at: " + stamp) + "\n")))
  }

  function ObjectLine(o: SchemaObject): string {
    Line(" " + SingleLine(o.engine) + ": " + SingleLine(o.name))
  }

  function ObjectText(o: SchemaObject): string { ObjectLine(o) + Ddl(o.statement) }

  function ObjectsText(objects: seq<SchemaObject>): string {
    if objects == [] then "" else ObjectText(objects[0]) + ObjectsText(objects[1..])
  }

  function SchemaText(cluster: string, database: string, schema: DatabaseSchema, stamp: string): string {
    Header(cluster, database, stamp) + Ddl(schema.databaseStatement) + ObjectsText(schema.objects)
  }

  // ---------------------------------------------------------------- what the file says

  /** A name on one line: line ends become spaces, every other byte stays. */
  ghost predicate OnOneLine(line: string, name: string) {
    |line| == |name| && forall k :: 0 <= k < |name| ==>
      line[k] == if name[k] == '\r' || name[k] == '\n' then ' ' else name[k]
  }

  lemma {:induction false} SingleLineTells(v: string)
    ensures OnOneLine(SingleLine(v), v)
  {
    if v != "" {
      SingleLineTells(v[1..]);
      assert forall k :: 0 < k < |v| ==> SingleLine(v)[k] == SingleLine(v[1..])[k - 1];
    }
  }

  /** A definition in the file: trimmed, with one semicolon at its end whether it brought one or not, and a blank
      line. */
  lemma DdlTells(statement: string)
    ensures var t := TrimSpace(statement);
      Ddl(statement) == if t != "" && t[|t| - 1] == ';' then t + "\n\n" else t + ";" + "\n\n"
  {
    var t := TrimSpace(statement);
    if t != "" && t[|t| - 1] == ';' {
      assert t[..|t| - 1] + (";" + "\n\n") == t + "\n\n";
    }
  }

  lemma LineText(prefix: string, name: string)
    ensures Line(prefix + name) == ("--" + prefix) + name + "\n"
  {}

  /** The header names the cluster, the database and the time, each on a line of its own, in this order. */
  lemma HeaderTells(cluster: string, database: string, stamp: string) returns (c: string, d: string)
    ensures OnOneLine(c, cluster) && OnOneLine(d, database)
    ensures Header(cluster, database, stamp)
         == ("--" + " ClickHouse database schema export" + "\n") + (("-- Cluster: " + c + "\n")
            + (("-- Database: " + d + "\n") + (("-- Generated at: " + stamp + "\n") + "\n")))
  {
    c, d := SingleLine(cluster), SingleLine(database);
    SingleLineTells(cluster);
    SingleLineTells(database);
    LineText(" Cluster: ", c);
    LineText(" Database: ", d);
    LineText(" Generated at: ", stamp);
    HeaderWords();
    LineAlone(" ClickHouse database schema export");
  }

  lemma LineAlone(v: string)
    ensures Line(v) == "--" + v + "\n"
  {}

  lemma HeaderWords()
    ensures "--" + " Cluster: " == "-- Cluster: " && "--" + " Database: " == "-- Database: "
    ensures "--" + " Generated at: " == "-- Generated at: "
  {}

  /** The line in front of an object names its engine and then itself. */
  lemma ObjectLineTells(o: SchemaObject) returns (engine: string, name: string)
    ensures OnOneLine(engine, o.engine) && OnOneLine(name, o.name)
    ensures ObjectLine(o) == "-- " + engine + ": " + name + "\n"
  {
    engine, name := SingleLine(o.engine), SingleLine(o.name);
    SingleLineTells(o.engine);
    SingleLineTells(o.name);
    LineAlone(" " + engine + ": " + name);
    assert "--" + (" " + engine + ": " + name) == "-- " + engine + ": " + name;
  }

  /** appendDDL */
  method AppendDdl(output: string, statement: string) returns (r: string)
    ensures r == output + Ddl(statement)
  {
    var trimmed := TrimSpace(statement);
    r := output + trimmed;
    if trimmed == "" || trimmed[|trimmed| - 1] != ';' {
      r := r + ";";
    }
    r := r + "\n\n";
    ghost var core := DropSemicolon(trimmed);
    assert trimmed == core || trimmed == core + ";";
    assert output + (core + (";" + "\n\n")) == ((output + core) + ";") + "\n\n";
    assert trimmed == core + ";" ==> output + trimmed == (output + core) + ";";
  }

  lemma {:induction false} ObjectsTextAppend(objects: seq<SchemaObject>, o: SchemaObject)
    ensures ObjectsText(objects + [o]) == ObjectsText(objects) + ObjectText(o)
  {
    if objects == [] {
      assert ([] + [o])[1..] == [] && ObjectText(o) + "" == "" + ObjectText(o);
    } else {
      ObjectsTextAppend(objects[1..], o);
      assert (objects + [o])[1..] == objects[1..] + [o];
      TextBehind(ObjectText(objects[0]), ObjectsText(objects[1..]), ObjectText(o));
    }
  }

  /** One turn of the loop over the objects. */
  method AppendObject(output: string, o: SchemaObject) returns (r: string)
    ensures r == output + ObjectText(o)
  {
    r := output + ObjectLine(o);
    r := AppendDdl(r, o.statement);
    TextBehind(output, ObjectLine(o), Ddl(o.statement));
  }

  lemma ObjectsTextNext(objects: seq<SchemaObject>, i: nat)
    requires i < |objects|
    ensures ObjectsText(objects[..i + 1]) == ObjectsText(objects[..i]) + ObjectText(objects[i])
  {
    ObjectsTextAppend(objects[..i], objects[i]);
    assert objects[..i] + [objects[i]] == objects[..i + 1];
  }

  method RenderDatabaseSchema(cluster: string, database: string, schema: DatabaseSchema, stamp: string)
    returns (output: string)
    ensures output == SchemaText(cluster, database, schema, stamp)
  {
    output := Header(cluster, database, stamp);
    output := AppendDdl(output, schema.databaseStatement);
    ghost var head := output;
    assert head + "" == head;
    for i := 0 to |schema.objects|
      invariant output == head + ObjectsText(schema.objects[..i])
    {
      ObjectsTextNext(schema.objects, i);
      TextBehind(head, ObjectsText(schema.objects[..i]), ObjectText(schema.objects[i]));
      output := AppendObject(output, schema.objects[i]);
    }
    assert schema.objects[..|schema.objects|] == schema.objects;
  }

  // ---------------------------------------------------------------- trivia in the file

  lemma LineIsTrivia(v: string)
    requires '\n' !in v
    ensures IsTriviaText(Line(v))
  {
    var t := Token(LineComment, Line(v));
    assert t.text + "" == t.text;
    assert Opens(t.text, '-', '-');
    assert forall k :: 2 <= k < |t.text| - 1 ==> t.text[k] == v[k - 2];
    ChainOfOne(t, "");
    ChainIsLex([t]);
  }

  lemma FeedIsTrivia()
    ensures IsTriviaText("\n")
  {
    ChainOfOne(FEED, "");
    ChainIsLex([FEED]);
  }

  lemma TriviaConcat(p: string, q: string)
    requires IsTriviaText(p) && IsTriviaText(q)
    ensures IsTriviaText(p + q)
  {
    LexSealed(p, q);
    assert forall t :: t in Lex(p).value + Lex(q).value ==> t in Lex(p).value || t in Lex(q).value;
  }

  lemma HeaderIsTrivia(cluster: string, database: string, stamp: string)
    requires '\n' !in stamp
    ensures IsTriviaText(Header(cluster, database, stamp))
  {
    LineIsTrivia(" ClickHouse database schema export");
    LineIsTrivia(" Cluster: " + SingleLine(cluster));
    LineIsTrivia(" Database: " + SingleLine(database));
    LineIsTrivia(" Generated at: " + stamp);
    FeedIsTrivia();
    TriviaConcat(Line(" Generated at: " + stamp), "\n");
    TriviaConcat(Line(" Database: " + SingleLine(database)), Line(" Generated at: " + stamp) + "\n");
    TriviaConcat(Line(" Cluster: " + SingleLine(cluster)),
                 Line(" Database: " + SingleLine(database)) + (Line(" Generated at: " + stamp) + "\n"));
    TriviaConcat(Line(" ClickHouse database schema export"),
                 Line(" Cluster: " + SingleLine(cluster))
                 + (Line(" Database: " + SingleLine(database)) + (Line(" Generated at: " + stamp) + "\n")));
  }

  /** What stands between a semicolon and the next definition. */
  function Gap(o: SchemaObject): string { "\n\n" + ObjectLine(o) }

  lemma GapIsTrivia(o: SchemaObject)
    ensures IsTriviaText(Gap(o)) && IsTriviaText("\n\n")
  {
    FeedIsTrivia();
    TriviaConcat("\n", "\n");
    assert "\n" + "\n" == "\n\n";
    LineIsTrivia(" " + SingleLine(o.engine) + ": " + SingleLine(o.name));
    TriviaConcat("\n\n", ObjectLine(o));
  }

  // ---------------------------------------------------------------- blocks

  /** A definition without its semicolon, and the trivia in front of it. */
  datatype Block = Block(gap: string, core: string)

  /** The definition is one statement. */
  ghost predicate IsDefinition(core: string) {
    core != "" && !IsBlank(core[0]) && Lex(core).Ok? && NoSemicolon(Lex(core).value) && HasCode(Lex(core).value)
  }

  ghost predicate Closes(core: string) { Lex(core).Ok? && !EndsOpen(Lex(core).value) }

  function BlocksText(blocks: seq<Block>): string {
    if blocks == [] then "\n\n" else blocks[0].gap + (blocks[0].core + (";" + BlocksText(blocks[1..])))
  }

  /** The statement that a block should come back as. */
  function Expected(b: Block): string { TrimLeft(b.gap) + TrimSpace(b.core) }

  function ExpectedAll(blocks: seq<Block>): seq<string> {
    seq(|blocks|, i requires 0 <= i < |blocks| => Expected(blocks[i]))
  }

  lemma TailSplitsToNothing()
    ensures Split("\n\n") == Ok([])
  {
    assert Chain([FEED, FEED], "") by {
      assert [FEED, FEED][1..] == [FEED] && [FEED][1..] == [];
    }
    assert Text([FEED, FEED]) == "\n" + Text([FEED]) && Text([FEED]) == "\n";
    assert "\n" + "\n" == "\n\n";
    ChainIsLex([FEED, FEED]);
    StatementsOfPiece([FEED, FEED], "", false);
  }

  lemma LexClosedBlock(b: Block, more: string)
    requires IsTriviaText(b.gap) && IsDefinition(b.core) && Closes(b.core)
    ensures Lex(b.gap + (b.core + (";" + more)))
         == Then(Lex(b.gap).value + Lex(b.core).value, Then([SEMI], Lex(more)))
  {
    LexSealed(b.gap, b.core + (";" + more));
    LexAppend(b.core, ";" + more);
    LexSemi(more);
    ThenThen(Lex(b.gap).value, Lex(b.core).value, Then([SEMI], Lex(more)));
  }

  lemma ExpectedIsTrimmed(b: Block)
    requires IsDefinition(b.core)
    ensures TrimSpace("" + (b.gap + b.core)) == Expected(b)
  {
    TrimOfPiece(b.gap, b.core);
    assert "" + (b.gap + b.core) == b.gap + b.core;
  }

  lemma BlockPiece(b: Block)
    requires IsTriviaText(b.gap) && IsDefinition(b.core)
    ensures var piece := Lex(b.gap).value + Lex(b.core).value;
      NoSemicolon(piece) && HasCode(piece) && Text(piece) == b.gap + b.core
  {
    var p, q := Lex(b.gap).value, Lex(b.core).value;
    LexText(b.gap);
    LexText(b.core);
    TextAppend(p, q);
    HasCodeAppend(p, q);
    TriviaNoSemicolon(b.gap);
  }

  lemma TriviaNoSemicolon(gap: string)
    requires IsTriviaText(gap)
    ensures NoSemicolon(Lex(gap).value)
  {
    var p := Lex(gap).value;
    assert forall k :: 0 <= k < |p| ==> p[k] in p;
  }

  /** A closed block is split off the front of any text. */
  lemma SplitClosedBlock(b: Block, more: string)
    requires IsTriviaText(b.gap) && IsDefinition(b.core) && Closes(b.core)
    ensures Split(b.gap + (b.core + (";" + more))) ==
      match Split(more) case Err(e) => Err(e) case Ok(rest) => Ok([Expected(b)] + rest)
  {
    LexClosedBlock(b, more);
    BlockPiece(b);
    ExpectedIsTrimmed(b);
    SplitBefore(b.gap + (b.core + (";" + more)), Lex(b.gap).value + Lex(b.core).value, more);
  }

  // ---------------------------------------------------------------- a definition that ends in a line comment

  lemma SemicolonLine(more: string)
    ensures var tail := ";" + ("\n" + more);
      LineEnd(tail) == 2 && tail[..2] == ";\n" && tail[2..] == more && tail[0] == ';'
  {
    assert (";" + ("\n" + more))[1..] == "\n" + more;
  }

  lemma GrownPiece(b: Block)
    requires IsTriviaText(b.gap) && IsDefinition(b.core) && !Closes(b.core)
    ensures var piece := Lex(b.gap).value + Grown(Lex(b.core).value, ";\n");
      NoSemicolon(piece) && HasCode(piece) && Text(piece) == b.gap + (b.core + ";\n")
  {
    var p, q := Lex(b.gap).value, Lex(b.core).value;
    GrownKeeps(q, ";\n");
    LexText(b.gap);
    LexText(b.core);
    TextAppend(p, Grown(q, ";\n"));
    HasCodeAppend(p, Grown(q, ";\n"));
    TriviaNoSemicolon(b.gap);
  }

  lemma OpenBlockLexes(b: Block, more: string) returns (piece: seq<Token>)
    requires IsTriviaText(b.gap) && IsDefinition(b.core) && !Closes(b.core)
    ensures NoSemicolon(piece) && HasCode(piece) && Text(piece) == b.gap + (b.core + ";\n")
    ensures Lex(b.gap + (b.core + (";" + ("\n" + more)))) == Then(piece, Lex(more))
  {
    var p, grown, tail := Lex(b.gap).value, Grown(Lex(b.core).value, ";\n"), ";" + ("\n" + more);
    SemicolonLine(more);
    LexSealed(b.gap, b.core + tail);
    LexAppendOpen(b.core, tail);
    GrownPiece(b);
    piece := p + grown;
    ThenThen(p, grown, Lex(more));
  }

  /** A statement that goes on behind the semicolon is longer than the definition. */
  lemma SwallowedIsLonger(b: Block, z: string)
    requires b.core != "" && !IsBlank(b.core[0])
    ensures TrimSpace((b.gap + (b.core + ";\n")) + z) != Expected(b)
  {
    var core := b.core + ";\n" + z;
    TextBehind(b.gap, b.core + ";\n", z);
    assert core[0] == b.core[0] && core[|b.core|] == ';';
    TrimOfPiece(b.gap, core);
    TrimKeeps(core, |b.core|);
  }

  /** The semicolon behind an open line comment is swallowed: the first statement is too long. */
  lemma SplitOpenBlock(b: Block, more: string)
    requires IsTriviaText(b.gap) && IsDefinition(b.core) && !Closes(b.core)
    ensures var r := Split(b.gap + (b.core + (";" + ("\n" + more))));
      r.Ok? ==> r.value != [] && r.value[0] != Expected(b)
  {
    var piece := OpenBlockLexes(b, more);
    if Lex(more).Ok? {
      StatementsAfterCode(piece, Lex(more).value, "", false);
      assert "" + Text(piece) == Text(piece);
      var z := FirstStatement(Lex(more).value, Text(piece));
      SwallowedIsLonger(b, z);
    }
  }

  // ---------------------------------------------------------------- main results

  ghost predicate AllClose(blocks: seq<Block>) { forall b :: b in blocks ==> Closes(b.core) }

  /** The trivia in front begins with an empty line. */
  predicate Spaced(b: Block) { "\n\n" <= b.gap }

  ghost predicate BlockOk(b: Block) { IsTriviaText(b.gap) && IsDefinition(b.core) }

  ghost predicate SpacedBlocks(blocks: seq<Block>) { forall b :: b in blocks ==> BlockOk(b) && Spaced(b) }

  lemma BlocksBegin(blocks: seq<Block>) returns (more: string)
    requires blocks != [] ==> Spaced(blocks[0])
    ensures BlocksText(blocks) == "\n" + more
  {
    var t := BlocksText(blocks);
    assert |t| > 0 && t[0] == '\n';
    more := t[1..];
  }

  lemma ExpectedCons(b: Block, rest: seq<Block>)
    ensures ExpectedAll([b] + rest) == [Expected(b)] + ExpectedAll(rest)
    ensures AllClose([b] + rest) <==> Closes(b.core) && AllClose(rest)
  {
    assert b in [b] + rest;
    assert forall c :: c in [b] + rest <==> c == b || c in rest;
  }

  lemma ClosedCons(b: Block, rest: seq<Block>, text: string)
    requires IsTriviaText(b.gap) && IsDefinition(b.core) && Closes(b.core)
    requires Split(text) == Ok(ExpectedAll(rest)) <==> AllClose(rest)
    ensures Split(b.gap + (b.core + (";" + text))) == Ok([Expected(b)] + ExpectedAll(rest)) <==> AllClose(rest)
  {
    SplitClosedBlock(b, text);
    if Split(text).Ok? {
      assert ([Expected(b)] + Split(text).value)[1..] == Split(text).value;
      assert ([Expected(b)] + ExpectedAll(rest))[1..] == ExpectedAll(rest);
    }
  }

  lemma OpenCons(b: Block, rest: seq<Block>)
    requires IsTriviaText(b.gap) && IsDefinition(b.core) && !Closes(b.core)
    requires rest != [] ==> Spaced(rest[0])
    ensures Split(b.gap + (b.core + (";" + BlocksText(rest)))) != Ok([Expected(b)] + ExpectedAll(rest))
  {
    var tail := BlocksBegin(rest);
    SplitOpenBlock(b, tail);
    assert ([Expected(b)] + ExpectedAll(rest))[0] == Expected(b);
  }

  /** The blocks split back exactly when none ends inside a line comment. */
  ghost predicate SplitsBack(blocks: seq<Block>) {
    Split(BlocksText(blocks)) == Ok(ExpectedAll(blocks)) <==> AllClose(blocks)
  }

  lemma NoBlocks(blocks: seq<Block>)
    requires blocks == []
    ensures SplitsBack(blocks)
  {
    TailSplitsToNothing();
    assert ExpectedAll(blocks) == [];
  }

  lemma SplitCons(b: Block, rest: seq<Block>)
    requires BlockOk(b) && (rest != [] ==> Spaced(rest[0])) && SplitsBack(rest)
    ensures SplitsBack([b] + rest)
  {
    assert ([b] + rest)[1..] == rest;
    ExpectedCons(b, rest);
    if Closes(b.core) {
      ClosedCons(b, rest, BlocksText(rest));
    } else {
      OpenCons(b, rest);
    }
  }

  lemma SpacedCons(b: Block, rest: seq<Block>)
    requires SpacedBlocks([b] + rest)
    ensures BlockOk(b) && Spaced(b) && SpacedBlocks(rest)
  {
    assert forall c :: c in rest ==> c in [b] + rest;
    assert b in [b] + rest;
  }

  /** Splitting the file gives one statement for each definition, in order, each the trimmed definition
      behind its trivia, exactly when no definition ends inside a line comment. */
  lemma {:induction false} BlocksSplit(first: Block, rest: seq<Block>)
    requires BlockOk(first) && SpacedBlocks(rest)
    ensures SplitsBack([first] + rest)
    decreases |rest|
  {
    if rest == [] {
      NoBlocks(rest);
    } else {
      assert rest == [rest[0]] + rest[1..];
      SpacedCons(rest[0], rest[1..]);
      BlocksSplit(rest[0], rest[1..]);
    }
    SplitCons(first, rest);
  }

  function CoreOf(statement: string): string { DropSemicolon(TrimSpace(statement)) }

  function SchemaBlocks(cluster: string, database: string, schema: DatabaseSchema, stamp: string): seq<Block> {
    [Block(Header(cluster, database, stamp), CoreOf(schema.databaseStatement))] + ObjectBlocks(schema.objects)
  }

  function ObjectBlocks(objects: seq<SchemaObject>): (r: seq<Block>)
    ensures |r| == |objects|
    ensures forall i :: 0 <= i < |r| ==> r[i] == Block(Gap(objects[i]), CoreOf(objects[i].statement))
  {
    seq(|objects|, i requires 0 <= i < |objects| => Block(Gap(objects[i]), CoreOf(objects[i].statement)))
  }

  lemma {:induction false} ObjectsAreBlocks(objects: seq<SchemaObject>)
    ensures BlocksText(ObjectBlocks(objects)) == "\n\n" + ObjectsText(objects)
  {
    if objects == [] {
      assert "\n\n" + "" == "\n\n";
    } else {
      var o := objects[0];
      ObjectsAreBlocks(objects[1..]);
      assert ObjectBlocks(objects)[1..] == ObjectBlocks(objects[1..]);
      BlockLayout("\n\n", ObjectLine(o), CoreOf(o.statement), ObjectsText(objects[1..]));
    }
  }

  lemma BlockLayout(feeds: string, line: string, core: string, more: string)
    ensures (feeds + line) + (core + (";" + (feeds + more))) == feeds + ((line + (core + (";" + feeds))) + more)
  {}

  lemma SchemaIsBlocks(cluster: string, database: string, schema: DatabaseSchema, stamp: string)
    ensures SchemaText(cluster, database, schema, stamp) == BlocksText(SchemaBlocks(cluster, database, schema, stamp))
  {
    var blocks := SchemaBlocks(cluster, database, schema, stamp);
    assert blocks[1..] == ObjectBlocks(schema.objects);
    ObjectsAreBlocks(schema.objects);
    HeadLayout(Header(cluster, database, stamp), CoreOf(schema.databaseStatement), ObjectsText(schema.objects));
  }

  lemma HeadLayout(head: string, core: string, more: string)
    ensures head + (core + (";" + "\n\n")) + more == head + (core + (";" + ("\n\n" + more)))
  {}

  /** Every definition of the schema is one statement that bears code, with or without a final semicolon. */
  ghost predicate SchemaOk(schema: DatabaseSchema) {
    && IsDefinition(CoreOf(schema.databaseStatement))
    && forall o :: o in schema.objects ==> IsDefinition(CoreOf(o.statement))
  }

  ghost predicate SchemaCloses(schema: DatabaseSchema) {
    && Closes(CoreOf(schema.databaseStatement))
    && forall o :: o in schema.objects ==> Closes(CoreOf(o.statement))
  }

  lemma ObjectBlocksOk(objects: seq<SchemaObject>)
    requires forall o :: o in objects ==> IsDefinition(CoreOf(o.statement))
    ensures SpacedBlocks(ObjectBlocks(objects))
    ensures AllClose(ObjectBlocks(objects)) <==> forall o :: o in objects ==> Closes(CoreOf(o.statement))
  {
    var blocks := ObjectBlocks(objects);
    forall b | b in blocks
      ensures BlockOk(b) && Spaced(b)
      ensures exists o :: o in objects && b.core == CoreOf(o.statement)
    {
      var i :| 0 <= i < |blocks| && blocks[i] == b;
      GapIsTrivia(objects[i]);
    }
    forall o | o in objects
      ensures Block(Gap(o), CoreOf(o.statement)) in blocks
    {
      var i :| 0 <= i < |objects| && objects[i] == o;
      assert blocks[i] == Block(Gap(o), CoreOf(o.statement));
    }
  }

  /** Export, then split: one statement for the database and one for each object, in order, exactly when
      no definition ends inside a line comment; for all cluster, database, engine and object names. */
  lemma ExportSplitsBack(cluster: string, database: string, schema: DatabaseSchema, stamp: string)
    requires SchemaOk(schema) && '\n' !in stamp
    ensures var blocks := SchemaBlocks(cluster, database, schema, stamp);
      && |blocks| == 1 + |schema.objects|
      && (Split(SchemaText(cluster, database, schema, stamp)) == Ok(ExpectedAll(blocks)) <==> SchemaCloses(schema))
  {
    var first := Block(Header(cluster, database, stamp), CoreOf(schema.databaseStatement));
    var objects := ObjectBlocks(schema.objects);
    SchemaIsBlocks(cluster, database, schema, stamp);
    HeaderIsTrivia(cluster, database, stamp);
    ObjectBlocksOk(schema.objects);
    ExpectedCons(first, objects);
    BlocksSplit(first, objects);
  }

  /** A schema whose export does not split back: the definition ends in a comment, which takes in the semicolon. */
  lemma ExportLosesSemicolon(cluster: string, database: string, stamp: string) returns (schema: DatabaseSchema)
    requires '\n' !in stamp
    ensures schema == DatabaseSchema("SHOW" + "--", []) && SchemaOk(schema)
    ensures var blocks := SchemaBlocks(cluster, database, schema, stamp);
      Split(SchemaText(cluster, database, schema, stamp)) != Ok(ExpectedAll(blocks))
  {
    var x := "SHOW" + "--";
    schema := DatabaseSchema(x, []);
    ShowIsCode();
    DashedStatement("SHOW", x);
    TrimFixed(x);
    LastBehind("SHOW", "--");
    assert CoreOf(x) == x;
    ExportSplitsBack(cluster, database, schema, stamp);
  }

  /** Each expected statement is the trimmed definition once the trivia in front is removed. */
  lemma ExpectedBody(b: Block)
    requires IsTriviaText(b.gap) && IsDefinition(b.core)
    ensures StatementBody(Expected(b)) == StatementBody(TrimSpace(b.core))
    ensures Expected(b)[|TrimLeft(b.gap)|..] == TrimSpace(b.core)
  {
    BodyBehindTrivia(b.gap, TrimSpace(b.core));
  }
}
