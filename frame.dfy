/** The frame codec of the AMI client: `_parse`, which turns one frame read
    off the socket into a field dictionary, and the serialisation half of
    `_send_command`, which injects the `actionid` token and writes
    `Key: Value` lines followed by a blank line. */
module Frame {
  import opened Common
  import opened Text

  /** A parsed frame: lower-cased field names to verbatim values. */
  type Message = map<string, string>

  /** One outbound field.  A command is a `seq<Field>` with distinct keys,
      so that the order of the encoded lines is fixed. */
  type Field = (string, string)

  const CRLF: string := "\r\n"
  const Colon: string := ": "
  const ActionId: string := "actionid"

  // ---------------------------------------------------------------------
  // Parsing

  /** A line yields a field only when splitting it on ": " gives exactly two
      pieces; blank lines and lines with two separators do not. */
  predicate Conforming(line: string) {
    |Split(line, Colon)| == 2
  }

  function KeyOf(line: string): string
    requires Conforming(line)
  {
    Lower(Split(line, Colon)[0])
  }

  function ValueOf(line: string): string
    requires Conforming(line)
  {
    Split(line, Colon)[1]
  }

  /** The dictionary the parsing loop holds after it has seen `lines`. */
  function Collect(lines: seq<string>): Message {
    if lines == [] then map[]
    else
      var last := lines[|lines| - 1];
      var m := Collect(lines[..|lines| - 1]);
      if Conforming(last) then m[KeyOf(last) := ValueOf(last)] else m
  }

  /** What `_parse` returns for a frame, or for no frame at all. */
  function ParseFrame(message: Option<string>): Message {
    match message
    case None => map[]
    case Some(s) => Collect(Split(s, CRLF))
  }

  /** `_parse`: split the frame into lines and store every conforming line
      under its lower-cased key, later lines overwriting earlier ones. */
  method Parse(message: Option<string>) returns (response: Message)
    ensures message.None? ==> response == map[]
    ensures response == ParseFrame(message)
    ensures forall k :: k in response ==> IsLower(k)
  {
    response := map[];
    if message.None? {
      return;
    }
    var lines := Split(message.value, CRLF);
    for i := 0 to |lines|
      invariant response == Collect(lines[..i])
    {
      assert lines[..i + 1][..i] == lines[..i];
      var parts := Split(lines[i], Colon);
      if |parts| == 2 {
        response := response[Lower(parts[0]) := parts[1]];
      }
    }
    assert lines[..|lines|] == lines;
    CollectKeysLower(lines);
  }

  /** Line `i` of `lines` is conforming and names key `k`. */
  ghost predicate Defines(lines: seq<string>, i: int, k: string) {
    0 <= i < |lines| && Conforming(lines[i]) && KeyOf(lines[i]) == k
  }

  /** Line `i` is the last line of `lines` that names key `k`. */
  ghost predicate LastDefines(lines: seq<string>, i: int, k: string) {
    Defines(lines, i, k) && forall j :: i < j < |lines| ==> !Defines(lines, j, k)
  }

  lemma DefinesInPrefix(lines: seq<string>, n: nat, k: string)
    requires n <= |lines|
    ensures forall i :: 0 <= i < n ==> (Defines(lines[..n], i, k) <==> Defines(lines, i, k))
  {
    forall i | 0 <= i < n ensures Defines(lines[..n], i, k) <==> Defines(lines, i, k) {
      assert lines[..n][i] == lines[i];
    }
  }

  /** A key is present exactly when some conforming line names it. */
  lemma {:induction false} CollectKeys(lines: seq<string>, k: string)
    ensures k in Collect(lines) <==> exists i :: Defines(lines, i, k)
  {
    if lines != [] {
      var n := |lines| - 1;
      CollectKeys(lines[..n], k);
      DefinesInPrefix(lines, n, k);
      if k in Collect(lines) && !Defines(lines, n, k) {
        var i :| Defines(lines[..n], i, k);
        assert Defines(lines, i, k);
      }
    }
  }

  /** The value stored under a key comes from the LAST line that names it:
      a later duplicate overwrites an earlier one. */
  lemma {:induction false} CollectValue(lines: seq<string>, k: string) returns (i: int)
    requires k in Collect(lines)
    ensures LastDefines(lines, i, k) && ValueOf(lines[i]) == Collect(lines)[k]
  {
    var n := |lines| - 1;
    if Defines(lines, n, k) {
      i := n;
    } else {
      DefinesInPrefix(lines, n, k);
      i := CollectValue(lines[..n], k);
      assert Defines(lines, i, k);
    }
  }

  lemma {:induction false} CollectKeysLower(lines: seq<string>)
    ensures forall k :: k in Collect(lines) ==> IsLower(k)
  {
    if lines != [] {
      CollectKeysLower(lines[..|lines| - 1]);
      var last := lines[|lines| - 1];
      if Conforming(last) {
        LowerIsLower(Split(last, Colon)[0]);
      }
    }
  }

  /** A non-conforming line anywhere in a frame is skipped without effect. */
  lemma {:induction false} SkipMalformed(a: seq<string>, line: string, b: seq<string>)
    requires !Conforming(line)
    ensures Collect(a + [line] + b) == Collect(a + b)
  {
    if b == [] {
      assert (a + [line] + b)[..|a|] == a;
      assert a + b == a;
    } else {
      var b' := b[..|b| - 1];
      SkipMalformed(a, line, b');
      assert (a + [line] + b)[..|a + [line] + b| - 1] == a + [line] + b';
      assert (a + b)[..|a + b| - 1] == a + b';
    }
  }

  // ---------------------------------------------------------------------
  // Encoding

  /** `key + ": " + value`, one line without its terminator. */
  function FieldLine(f: Field): string {
    f.0 + Colon + f.1
  }

  /** The lines of a frame, each followed by "\r\n". */
  function Lines(fields: seq<Field>): string {
    if fields == [] then "" else FieldLine(fields[0]) + CRLF + Lines(fields[1..])
  }

  /** The frame: every line, then the terminating blank line. */
  function Serialize(fields: seq<Field>): string {
    Lines(fields) + CRLF
  }

  predicate DistinctKeys(fields: seq<Field>) {
    forall i, j :: 0 <= i < j < |fields| ==> fields[i].0 != fields[j].0
  }

  /** `cmd_dict['actionid'] = action_id`: an existing `actionid` field gets
      the new value in place, otherwise the field is added at the end. */
  function WithActionId(cmd: seq<Field>, token: string): seq<Field>
    requires DistinctKeys(cmd)
  {
    if cmd == [] then [(ActionId, token)]
    else if cmd[0].0 == ActionId then [(ActionId, token)] + cmd[1..]
    else [cmd[0]] + WithActionId(cmd[1..], token)
  }

  /** Token injection introduces no key other than `actionid`. */
  lemma {:induction false} WithActionIdKeyAbsent(cmd: seq<Field>, token: string, k: string)
    requires DistinctKeys(cmd) && k != ActionId
    requires forall i :: 0 <= i < |cmd| ==> cmd[i].0 != k
    ensures forall i :: 0 <= i < |WithActionId(cmd, token)| ==> WithActionId(cmd, token)[i].0 != k
  {
    if cmd != [] && cmd[0].0 != ActionId {
      var tail := cmd[1..];
      assert forall i :: 0 <= i < |tail| ==> tail[i] == cmd[i + 1];
      WithActionIdKeyAbsent(tail, token, k);
    }
  }

  /** After token injection the command has `actionid` = token, and no
      other `actionid` field survives: an earlier value is overwritten. */
  lemma {:induction false} WithActionIdSetsToken(cmd: seq<Field>, token: string)
    requires DistinctKeys(cmd)
    ensures (ActionId, token) in WithActionId(cmd, token)
    ensures forall f :: f in WithActionId(cmd, token) && f.0 == ActionId ==> f.1 == token
  {
    var r := WithActionId(cmd, token);
    if cmd != [] {
      var f, tail := cmd[0], cmd[1..];
      assert forall i :: 0 <= i < |tail| ==> tail[i] == cmd[i + 1];
      if f.0 == ActionId {
        assert r == [(ActionId, token)] + tail;
        assert r[0] == (ActionId, token);
        assert forall i :: 0 < i < |r| ==> r[i] == cmd[i];
        forall g | g in r && g.0 == ActionId ensures g.1 == token {
          var i :| 0 <= i < |r| && r[i] == g;
        }
      } else {
        WithActionIdSetsToken(tail, token);
        assert r == [f] + WithActionId(tail, token);
      }
    }
  }

  lemma DistinctTail(cmd: seq<Field>)
    requires cmd != [] && DistinctKeys(cmd)
    ensures DistinctKeys(cmd[1..])
  {
    assert forall i :: 0 <= i < |cmd| - 1 ==> cmd[1..][i] == cmd[i + 1];
  }

  /** Token injection keeps every field other than `actionid`. */
  lemma {:induction false} WithActionIdKeepsFields(cmd: seq<Field>, token: string)
    requires DistinctKeys(cmd)
    ensures forall f :: f in cmd && f.0 != ActionId ==> f in WithActionId(cmd, token)
  {
    var r := WithActionId(cmd, token);
    if cmd != [] {
      var f, tail := cmd[0], cmd[1..];
      DistinctTail(cmd);
      if f.0 == ActionId {
        assert r == [(ActionId, token)] + tail;
        forall g | g in cmd && g.0 != ActionId ensures g in r {
          var i :| 0 <= i < |cmd| && cmd[i] == g;
          assert r[i] == g;
        }
      } else {
        var rest := WithActionId(tail, token);
        WithActionIdKeepsFields(tail, token);
        assert r == [f] + rest;
        forall g | g in cmd && g.0 != ActionId ensures g in r {
          if g != f {
            var i :| 0 <= i < |cmd| && cmd[i] == g;
            assert tail[i - 1] == g;
            assert g in rest;
          }
        }
      }
    }
  }

  /** Token injection adds no field other than `actionid`. */
  lemma {:induction false} WithActionIdAddsNothing(cmd: seq<Field>, token: string)
    requires DistinctKeys(cmd)
    ensures forall f :: f in WithActionId(cmd, token) && f.0 != ActionId ==> f in cmd
  {
    var r := WithActionId(cmd, token);
    if cmd != [] {
      var f, tail := cmd[0], cmd[1..];
      DistinctTail(cmd);
      if f.0 == ActionId {
        assert r == [(ActionId, token)] + tail;
        forall g | g in r && g.0 != ActionId ensures g in cmd {
          var i :| 0 <= i < |r| && r[i] == g;
          assert cmd[i] == g;
        }
      } else {
        var rest := WithActionId(tail, token);
        WithActionIdAddsNothing(tail, token);
        assert r == [f] + rest;
        forall g | g in r && g.0 != ActionId ensures g in cmd {
          if g != f {
            var i :| 0 <= i < |r| && r[i] == g;
            assert rest[i - 1] == g;
            assert g in tail;
            var j :| 0 <= j < |tail| && tail[j] == g;
            assert cmd[j + 1] == g;
          }
        }
      }
    }
  }

  /** Token injection keeps the keys of a command distinct. */
  lemma {:induction false} WithActionIdDistinct(cmd: seq<Field>, token: string)
    requires DistinctKeys(cmd)
    ensures DistinctKeys(WithActionId(cmd, token))
  {
    if cmd != [] {
      var f, tail := cmd[0], cmd[1..];
      assert forall i :: 0 <= i < |tail| ==> tail[i] == cmd[i + 1];
      if f.0 == ActionId {
        assert WithActionId(cmd, token) == [(ActionId, token)] + tail;
      } else {
        var rest := WithActionId(tail, token);
        WithActionIdDistinct(tail, token);
        WithActionIdKeyAbsent(tail, token, f.0);
        assert WithActionId(cmd, token) == [f] + rest;
      }
    }
  }

  /** A command without an `actionid` field gets the token as a new last
      field, after all of its own fields in their order. */
  lemma {:induction false} WithActionIdAppends(cmd: seq<Field>, token: string)
    requires DistinctKeys(cmd)
    requires forall i :: 0 <= i < |cmd| ==> cmd[i].0 != ActionId
    ensures WithActionId(cmd, token) == cmd + [(ActionId, token)]
  {
    if cmd != [] {
      var tail := cmd[1..];
      assert forall i :: 0 <= i < |tail| ==> tail[i] == cmd[i + 1];
      WithActionIdAppends(tail, token);
      assert cmd == [cmd[0]] + tail;
    }
  }

  /** The serialisation part of `_send_command`: an empty command is refused
      before a token is used, otherwise the token is injected and the frame
      written out. */
  function EncodeCommand(cmd: seq<Field>, token: string): (r: Result<string>)
    requires DistinctKeys(cmd)
    ensures r.Err? <==> cmd == []
    ensures r.Err? ==> r.error == EmptyCommand
    ensures r.Ok? ==> |r.value| >= 4 && r.value[|r.value| - 4..] == "\r\n\r\n"
  {
    if cmd == [] then Err(EmptyCommand)
    else
      var fields := WithActionId(cmd, token);
      LinesEndInCrlf(fields);
      Ok(Serialize(fields))
  }

  lemma {:induction false} LinesEndInCrlf(fields: seq<Field>)
    requires fields != []
    ensures |Lines(fields)| >= 2 && Lines(fields)[|Lines(fields)| - 2..] == CRLF
  {
    if fields[1..] != [] {
      LinesEndInCrlf(fields[1..]);
    }
  }

  // ---------------------------------------------------------------------
  // Round trip

  /** The dictionary a list of fields stands for (a later field wins). */
  function AsMap(fields: seq<Field>): (m: Message)
    ensures m.Keys == set i | 0 <= i < |fields| :: fields[i].0
  {
    if fields == [] then map[]
    else
      var n := |fields| - 1;
      assert forall i :: 0 <= i < n ==> fields[..n][i] == fields[i];
      AsMap(fields[..n])[fields[n].0 := fields[n].1]
  }

  /** With distinct keys, every field is found in the dictionary unchanged. */
  lemma {:induction false} AsMapValues(fields: seq<Field>)
    requires DistinctKeys(fields)
    ensures forall i :: 0 <= i < |fields| ==> AsMap(fields)[fields[i].0] == fields[i].1
  {
    if fields != [] {
      var n := |fields| - 1;
      var init := fields[..n];
      assert forall i :: 0 <= i < n ==> init[i] == fields[i];
      AsMapValues(init);
    }
  }

  /** With distinct keys the order of the fields does not matter, so the
      first field can be added last. */
  lemma {:induction false} AsMapCons(f: Field, rest: seq<Field>)
    requires forall i :: 0 <= i < |rest| ==> rest[i].0 != f.0
    ensures AsMap([f] + rest) == AsMap(rest)[f.0 := f.1]
    decreases |rest|
  {
    if rest == [] {
      assert [f] + rest == [f];
      assert [f][..0] == [];
    } else {
      var n := |rest| - 1;
      var g := rest[n];
      assert ([f] + rest)[..n + 1] == [f] + rest[..n];
      AsMapCons(f, rest[..n]);
      assert AsMap([f] + rest) == AsMap(rest[..n])[f.0 := f.1][g.0 := g.1];
      assert AsMap(rest) == AsMap(rest[..n])[g.0 := g.1];
    }
  }

  /** Neither the line terminator nor the key/value separator occurs in `s`. */
  ghost predicate Clean(s: string) {
    Free(s, CRLF) && Free(s, Colon)
  }

  /** A string with no carriage return and no colon is clean. */
  lemma PlainIsClean(s: string)
    requires forall i :: 0 <= i < |s| ==> s[i] != '\r' && s[i] != ':'
    ensures Clean(s)
  {
    forall i: nat ensures !OccursAt(s, CRLF, i) && !OccursAt(s, Colon, i) {
      if i + 2 <= |s| {
        assert s[i..i + 2][0] == s[i];
      }
    }
  }

  /** Fields that survive the wire unchanged: lower-case keys, and no
      terminator or separator inside a key or a value. */
  ghost predicate WireSafe(fields: seq<Field>) {
    forall i :: 0 <= i < |fields| ==> IsLower(fields[i].0) && Clean(fields[i].0) && Clean(fields[i].1)
  }

  function LineTexts(fields: seq<Field>): (ts: seq<string>)
    ensures |ts| == |fields|
  {
    seq(|fields|, i requires 0 <= i < |fields| => FieldLine(fields[i]))
  }

  lemma LineTextsCons(fields: seq<Field>)
    requires fields != []
    ensures LineTexts(fields) == [FieldLine(fields[0])] + LineTexts(fields[1..])
  {
  }

  lemma FieldLineSplits(f: Field)
    requires Clean(f.0) && Clean(f.1)
    ensures Split(FieldLine(f), Colon) == [f.0, f.1]
    ensures Free(FieldLine(f), CRLF)
  {
    SplitCons(f.0, Colon, f.1);
    SplitFree(f.1, Colon);
    assert Free(Colon, CRLF) by {
      forall i: nat ensures !OccursAt(Colon, CRLF, i) {
        if i == 0 { assert Colon[0] != CRLF[0]; }
      }
    }
    FreeConcat(f.0, Colon, CRLF);
    FreeConcat(f.0 + Colon, f.1, CRLF);
  }

  lemma ConcatAssoc<T>(a: seq<T>, b: seq<T>, c: seq<T>)
    ensures a + (b + c) == a + b + c
  {
  }

  lemma SplitFirstLine(fields: seq<Field>, rest: string)
    requires fields != [] && Clean(fields[0].0) && Clean(fields[0].1)
    ensures Split(Lines(fields) + rest, CRLF) == [FieldLine(fields[0])] + Split(Lines(fields[1..]) + rest, CRLF)
  {
    var line, after := FieldLine(fields[0]), Lines(fields[1..]) + rest;
    assert Lines(fields) + rest == line + CRLF + after;
    FieldLineSplits(fields[0]);
    SplitCons(line, CRLF, after);
  }

  /** Splitting encoded lines followed by anything on "\r\n" gives back
      those lines, then the pieces of what follows. */
  lemma {:induction false} SplitLines(fields: seq<Field>, rest: string)
    requires forall i :: 0 <= i < |fields| ==> Clean(fields[i].0) && Clean(fields[i].1)
    ensures Split(Lines(fields) + rest, CRLF) == LineTexts(fields) + Split(rest, CRLF)
  {
    if fields == [] {
      assert Lines(fields) + rest == rest;
    } else {
      var line, tail := [FieldLine(fields[0])], fields[1..];
      assert Split(Lines(fields) + rest, CRLF) == line + Split(Lines(tail) + rest, CRLF) by {
        SplitFirstLine(fields, rest);
      }
      assert Split(Lines(tail) + rest, CRLF) == LineTexts(tail) + Split(rest, CRLF) by {
        assert forall i :: 0 <= i < |tail| ==> tail[i] == fields[i + 1];
        SplitLines(tail, rest);
      }
      assert LineTexts(fields) == line + LineTexts(tail) by {
        LineTextsCons(fields);
      }
      ConcatAssoc(line, LineTexts(tail), Split(rest, CRLF));
    }
  }

  /** Splitting an encoded frame on "\r\n" gives back its lines, then the two
      empty pieces left by the blank line. */
  lemma SplitSerialized(fields: seq<Field>)
    requires forall i :: 0 <= i < |fields| ==> Clean(fields[i].0) && Clean(fields[i].1)
    ensures Split(Serialize(fields), CRLF) == LineTexts(fields) + ["", ""]
  {
    SplitLines(fields, CRLF);
    assert CRLF == "" + CRLF + "";
    SplitCons("", CRLF, "");
    SplitFree("", CRLF);
  }

  lemma {:induction false} CollectLineTexts(fields: seq<Field>)
    requires WireSafe(fields)
    ensures Collect(LineTexts(fields)) == AsMap(fields)
  {
    if fields != [] {
      var n := |fields| - 1;
      assert LineTexts(fields)[..n] == LineTexts(fields[..n]);
      CollectLineTexts(fields[..n]);
      FieldLineSplits(fields[n]);
      LowerOfLower(fields[n].0);
    }
  }

  /** Parsing a serialised frame recovers its fields. */
  lemma ParseSerialized(fields: seq<Field>)
    requires WireSafe(fields)
    ensures ParseFrame(Some(Serialize(fields))) == AsMap(fields)
  {
    var ts := LineTexts(fields);
    var lines := ts + ["", ""];
    SplitSerialized(fields);
    assert ParseFrame(Some(Serialize(fields))) == Collect(lines);
    SplitFree("", Colon);
    assert !Conforming("");
    assert lines[..|ts| + 1] == ts + [""];
    assert Collect(lines) == Collect(ts + [""]);
    assert (ts + [""])[..|ts|] == ts;
    assert Collect(ts + [""]) == Collect(ts);
    CollectLineTexts(fields);
  }

  lemma UpdateCommutes(m: Message, a: string, x: string, b: string, y: string)
    requires a != b
    ensures m[a := x][b := y] == m[b := y][a := x]
  {
  }

  lemma UpdateOverwrites(m: Message, a: string, x: string, y: string)
    ensures m[a := x][a := y] == m[a := y]
  {
  }

  lemma {:induction false} AsMapWithActionId(cmd: seq<Field>, token: string)
    requires DistinctKeys(cmd)
    ensures AsMap(WithActionId(cmd, token)) == AsMap(cmd)[ActionId := token]
  {
    var t := (ActionId, token);
    if cmd == [] {
      assert [t][..0] == [];
      assert AsMap([t]) == map[][ActionId := token];
    } else {
      var f, tail := cmd[0], cmd[1..];
      var m := AsMap(tail);
      assert forall i :: 0 <= i < |tail| ==> tail[i] == cmd[i + 1];
      assert cmd == [f] + tail;
      AsMapCons(f, tail);
      assert AsMap(cmd) == m[f.0 := f.1];
      if f.0 == ActionId {
        assert WithActionId(cmd, token) == [t] + tail;
        AsMapCons(t, tail);
        UpdateOverwrites(m, ActionId, f.1, token);
      } else {
        var r := WithActionId(tail, token);
        assert WithActionId(cmd, token) == [f] + r;
        AsMapWithActionId(tail, token);
        WithActionIdKeyAbsent(tail, token, f.0);
        AsMapCons(f, r);
        assert AsMap([f] + r) == m[ActionId := token][f.0 := f.1];
        UpdateCommutes(m, ActionId, token, f.0, f.1);
      }
    }
  }

  /** Token injection keeps a printable command printable. */
  lemma {:induction false} WithActionIdWireSafe(cmd: seq<Field>, token: string)
    requires DistinctKeys(cmd) && WireSafe(cmd) && Clean(token)
    ensures WireSafe(WithActionId(cmd, token))
  {
    assert IsLower(ActionId) && Clean(ActionId) by {
      forall i: nat ensures !OccursAt(ActionId, CRLF, i) && !OccursAt(ActionId, Colon, i) {
        if i + 2 <= |ActionId| {
          assert ActionId[i] != CRLF[0] && ActionId[i] != Colon[0];
        }
      }
    }
    if cmd != [] {
      var tail := cmd[1..];
      assert forall i :: 0 <= i < |tail| ==> tail[i] == cmd[i + 1];
      if cmd[0].0 != ActionId {
        WithActionIdWireSafe(tail, token);
      }
    }
  }

  /** Encoding a command and parsing the frame gives back the command plus
      the injected token. */
  lemma RoundTrip(cmd: seq<Field>, token: string)
    requires cmd != [] && DistinctKeys(cmd) && WireSafe(cmd) && Clean(token)
    ensures EncodeCommand(cmd, token).Ok?
    ensures ParseFrame(Some(EncodeCommand(cmd, token).value)) == AsMap(cmd)[ActionId := token]
  {
    var fields := WithActionId(cmd, token);
    WithActionIdWireSafe(cmd, token);
    ParseSerialized(fields);
    AsMapWithActionId(cmd, token);
  }

  lemma WireSafeParts(a: seq<Field>, b: seq<Field>)
    requires WireSafe(a + b)
    ensures WireSafe(a) && WireSafe(b)
    ensures LineTexts(a + b) == LineTexts(a) + LineTexts(b)
  {
    assert forall i :: 0 <= i < |a| ==> a[i] == (a + b)[i];
    assert forall i :: 0 <= i < |b| ==> b[i] == (a + b)[|a| + i];
  }

  lemma SplitWithMalformedLine(a: seq<Field>, bad: string, b: seq<Field>)
    requires WireSafe(a) && WireSafe(b) && Free(bad, CRLF)
    ensures Split(Lines(a) + bad + CRLF + Serialize(b), CRLF) ==
      LineTexts(a) + [bad] + (LineTexts(b) + ["", ""])
  {
    var after := bad + CRLF + Serialize(b);
    assert Lines(a) + bad + CRLF + Serialize(b) == Lines(a) + after;
    assert Split(Lines(a) + after, CRLF) == LineTexts(a) + Split(after, CRLF) by {
      SplitLines(a, after);
    }
    assert Split(after, CRLF) == [bad] + (LineTexts(b) + ["", ""]) by {
      SplitCons(bad, CRLF, Serialize(b));
      SplitSerialized(b);
    }
    ConcatAssoc(LineTexts(a), [bad], LineTexts(b) + ["", ""]);
  }

  /** A line that is not `Key: Value`, placed between the lines of a
      well-formed frame, is skipped and the rest parses as usual. */
  lemma ParseSkipsMalformedLine(a: seq<Field>, bad: string, b: seq<Field>)
    requires WireSafe(a + b) && Free(bad, CRLF) && !Conforming(bad)
    ensures ParseFrame(Some(Lines(a) + bad + CRLF + Serialize(b))) == AsMap(a + b)
  {
    WireSafeParts(a, b);
    var ta, tb := LineTexts(a), LineTexts(b);
    SplitWithMalformedLine(a, bad, b);
    SkipMalformed(ta, bad, tb + ["", ""]);
    assert ta + (tb + ["", ""]) == LineTexts(a + b) + ["", ""];
    SplitSerialized(a + b);
    ParseSerialized(a + b);
  }
}
