/** Refreshing the TLD list from the IANA registry file: the line normaliser,
    the content written back, and the record reported. */
module TldUpdater {
  import opened Wrappers
  import opened Text
  import opened Types

  /** Where the list goes when no path is given. */
  const DefaultFile := "tlds.txt"

  /** A well-formed entry of the list: a lower-case, trimmed, dotted, one-line label. */
  predicate IsEntry(e: string) {
    |e| >= 1 && e[0] == '.' && IsLowerCase(e) && Trimmed(e) && '\n' !in e
  }

  /** A line is dropped when, once trimmed, it is blank or a '#' comment. */
  predicate Dropped(line: string) {
    var t := Trim(line);
    |t| == 0 || t[0] == '#'
  }

  /** What one line of the registry file contributes to the list. */
  function NormaliseLine(line: string): (r: Option<string>)
    ensures r.None? <==> Dropped(line)
    ensures r.Some? ==> |r.value| >= 1 && r.value[0] == '.' && IsLowerCase(r.value) && Trimmed(r.value)
    ensures r.Some? ==> (r.value == Lower(Trim(line)) <==> Trim(line)[0] == '.')
    ensures r.Some? && Trim(line)[0] != '.' ==> r.value == ['.'] + Lower(Trim(line))
  {
    var trimmed := Trim(line);
    if |trimmed| == 0 then None
    else if trimmed[0] == '#' then None
    else
      var lowercase := Lower(trimmed);
      LowerIsLowerCase(trimmed);
      if lowercase[0] == '.' then Some(lowercase) else Some(['.'] + lowercase)
  }

  /** The entries kept from `lines`, in line order. */
  function KeptLines(lines: seq<string>): (tlds: seq<string>)
    ensures |tlds| <= |lines|
    decreases |lines|
  {
    if |lines| == 0 then []
    else
      var rest := KeptLines(lines[..|lines| - 1]);
      match NormaliseLine(lines[|lines| - 1])
      case None => rest
      case Some(e) => rest + [e]
  }

  /** What `parseTldList(raw)` returns. */
  function TldEntries(raw: string): seq<string> {
    KeptLines(Split(raw, '\n'))
  }

  method ParseTldList(raw: string) returns (tlds: seq<string>)
    ensures tlds == TldEntries(raw)
  {
    var lines := Split(raw, '\n');
    tlds := [];
    for k := 0 to |lines|
      invariant tlds == KeptLines(lines[..k])
    {
      assert lines[..k + 1][..k] == lines[..k];
      var trimmed := Trim(lines[k]);
      if |trimmed| == 0 {
        continue;
      }
      if trimmed[0] == '#' {
        continue;
      }
      var lowercase := Lower(trimmed);
      var withDot := if lowercase[0] == '.' then lowercase else ['.'] + lowercase;
      tlds := tlds + [withDot];
    }
    assert lines[..|lines|] == lines;
  }

  // ---------------------------------------------------------------------------
  // Properties of the normaliser
  // ---------------------------------------------------------------------------

  /** Normalising never brings in a line break. */
  lemma NormaliseKeepsOutNewline(line: string)
    requires '\n' !in line
    requires !Dropped(line)
    ensures '\n' !in NormaliseLine(line).value
  {
    TrimKeepsOut(line, '\n');
    var t := Trim(line);
    assert forall i :: 0 <= i < |t| ==> Lower(t)[i] == LowerChar(t[i]);
  }

  /** The list is a homomorphism of the lines: the lines of a concatenation
      contribute the entries of each part, one after the other. */
  lemma {:induction false} KeptLinesConcat(a: seq<string>, b: seq<string>)
    ensures KeptLines(a + b) == KeptLines(a) + KeptLines(b)
    decreases |b|
  {
    if |b| == 0 {
      assert a + b == a;
    } else {
      var b' := b[..|b| - 1];
      assert (a + b)[..|a + b| - 1] == a + b';
      assert (a + b)[|a + b| - 1] == b[|b| - 1];
      KeptLinesConcat(a, b');
    }
  }

  /** One line contributes its normalised form, or nothing. */
  lemma KeptLinesSingle(line: string)
    ensures KeptLines([line]) == if Dropped(line) then [] else [NormaliseLine(line).value]
  {
    assert [line][..0] == [];
  }

  /** Every entry of the list is a well-formed entry. */
  lemma {:induction false} KeptLinesWellFormed(lines: seq<string>)
    requires forall k :: 0 <= k < |lines| ==> '\n' !in lines[k]
    ensures forall k :: 0 <= k < |KeptLines(lines)| ==> IsEntry(KeptLines(lines)[k])
    decreases |lines|
  {
    if |lines| > 0 {
      KeptLinesWellFormed(lines[..|lines| - 1]);
      var last := lines[|lines| - 1];
      if !Dropped(last) {
        NormaliseKeepsOutNewline(last);
      }
    }
  }

  /** Every entry of `parseTldList(raw)` is non-empty, dotted, lower-case,
      trimmed and on one line. */
  lemma TldEntriesWellFormed(raw: string)
    ensures forall k :: 0 <= k < |TldEntries(raw)| ==> IsEntry(TldEntries(raw)[k])
  {
    KeptLinesWellFormed(Split(raw, '\n'));
  }

  /** The list is empty exactly when every line is blank or a comment. */
  lemma {:induction false} KeptLinesEmpty(lines: seq<string>)
    ensures KeptLines(lines) == [] <==> forall k :: 0 <= k < |lines| ==> Dropped(lines[k])
    decreases |lines|
  {
    if |lines| > 0 {
      var init := lines[..|lines| - 1];
      KeptLinesEmpty(init);
      assert forall k :: 0 <= k < |init| ==> init[k] == lines[k];
    }
  }

  /** Empty input gives the empty list. */
  lemma EmptyInputHasNoEntries()
    ensures TldEntries("") == []
  {
    assert Split("", '\n') == [""];
    KeptLinesSingle("");
  }

  /** A well-formed entry read as a line gives itself back. */
  lemma NormaliseEntry(e: string)
    requires IsEntry(e)
    ensures NormaliseLine(e) == Some(e)
  {
    TrimTrimmed(e);
    assert Lower(e) == e;
  }

  /** Lines that are already entries are kept as they are. */
  lemma {:induction false} KeptLinesOfEntries(tlds: seq<string>)
    requires forall k :: 0 <= k < |tlds| ==> IsEntry(tlds[k])
    ensures KeptLines(tlds) == tlds
    decreases |tlds|
  {
    if |tlds| > 0 {
      var init := tlds[..|tlds| - 1];
      KeptLinesOfEntries(init);
      NormaliseEntry(tlds[|tlds| - 1]);
    }
  }

  // ---------------------------------------------------------------------------
  // The update
  // ---------------------------------------------------------------------------

  /** The text written back: one entry per line, each line ended by '\n'. */
  function FileContent(tlds: seq<string>): string {
    Join(tlds, "\n") + "\n"
  }

  /** Reading back the written file gives the same list. */
  lemma RoundTrip(tlds: seq<string>)
    requires forall k :: 0 <= k < |tlds| ==> IsEntry(tlds[k])
    ensures TldEntries(FileContent(tlds)) == tlds
  {
    var lines := tlds + [""];
    if |tlds| == 0 {
      assert FileContent(tlds) == "" + ['\n'] + "";
      SplitConcat("", "", '\n');
      assert Split("", '\n') == [""];
      assert Split(FileContent(tlds), '\n') == ["", ""];
      KeptLinesConcat([""], [""]);
      KeptLinesSingle("");
    } else {
      JoinAppendEmpty(tlds, "\n");
      assert forall k :: 0 <= k < |lines| ==> '\n' !in lines[k];
      SplitJoin(lines, '\n');
      KeptLinesConcat(tlds, [""]);
      KeptLinesSingle("");
      KeptLinesOfEntries(tlds);
    }
  }

  /** Normalising the written file again changes nothing. */
  lemma ReparseIsIdentity(raw: string)
    ensures TldEntries(FileContent(TldEntries(raw))) == TldEntries(raw)
  {
    TldEntriesWellFormed(raw);
    RoundTrip(TldEntries(raw));
  }

  /** What the fetcher handed back: the body, or the reason it threw. */
  datatype FetchOutcome = Fetched(body: string) | FetchFailed(reason: string)

  /** One call of the writer. */
  datatype Write = Write(path: string, content: string)

  /** `updateTldList(fetcher, writer, filePath)`: the fetch outcome and the path
      are parameters, and the calls made to the writer are returned. */
  method UpdateTldList(fetched: FetchOutcome, filePath: Option<string>)
    returns (r: Result<UpdateResult, string>, writes: seq<Write>)
    ensures fetched.FetchFailed? ==> r == Failure(fetched.reason) && writes == []
    ensures fetched.Fetched? ==>
      var tlds := TldEntries(fetched.body);
      var file := if filePath.Some? then filePath.value else DefaultFile;
      && r == Success(UpdateResult(|tlds|, file))
      && writes == [Write(file, FileContent(tlds))]
    ensures fetched.Fetched? ==> TldEntries(writes[0].content) == TldEntries(fetched.body)
    ensures fetched.Fetched? ==> |TldEntries(writes[0].content)| == r.value.count
  {
    var file := if filePath.Some? then filePath.value else DefaultFile;
    if fetched.FetchFailed? {
      return Failure(fetched.reason), [];
    }
    var tlds := ParseTldList(fetched.body);
    var content := Join(tlds, "\n") + "\n";
    ReparseIsIdentity(fetched.body);
    writes := [Write(file, content)];
    r := Success(UpdateResult(|tlds|, file));
  }
}
