/** The history and media state of the rich editor (`client/js/media-editor.js`): a bounded undo
    stack and a redo stack of HTML snapshots, the toolbar command entry point, admission of
    dropped or picked files, the status bar counts, and `clear`.

    The DOM is reduced to the editor's HTML string; a formatting command's effect on it is a
    parameter `exec`, and inserting a media preview at the caret is a parameter `insert`. Where
    the page's selection is and the `Date.now()` readings are parameters. */
module MediaEditor {
  import Text

  const HistoryLimit: nat := 100

  datatype File = File(name: string, mime: string, size: int)

  datatype Options = Options(maxFileSize: int, allowedFileTypes: seq<string>)

  /** The constructor's defaults: 5 MB, and JPEG, PNG, GIF images and MP4 video. */
  const DefaultOptions: Options :=
    Options(5 * 1024 * 1024, ["image/jpeg", "image/png", "image/gif", "video/mp4"])

  datatype Editor = Editor(
    html: string,                // the editable element's innerHTML
    content: string,             // the last content the editor recorded
    media: map<string, File>,    // mediaFiles
    undo: seq<string>,
    redo: seq<string>)

  /** The history invariant: the two stacks together hold at most `HistoryLimit` snapshots. */
  predicate Bounded(e: Editor) {
    |e.undo| + |e.redo| <= HistoryLimit
  }

  /** `saveToHistory`: push the current HTML, drop the oldest snapshot once past the limit, and
      forget the redo stack. */
  function SaveToHistory(e: Editor): (r: Editor)
    ensures r.redo == [] && r.html == e.html && r.content == e.content && r.media == e.media
    ensures |r.undo| == if |e.undo| + 1 > HistoryLimit then |e.undo| else |e.undo| + 1
    ensures r.undo == (e.undo + [e.html])[|e.undo| + 1 - |r.undo|..]
  {
    var pushed := e.undo + [e.html];
    e.(undo := if |pushed| > HistoryLimit then pushed[1..] else pushed, redo := [])
  }

  /** `undo`: the top snapshot becomes the HTML and the current HTML goes to the redo stack. */
  function Undo(e: Editor): (r: Editor)
    ensures |e.undo| == 0 ==> r == e
    ensures |e.undo| > 0 ==> r.html == e.undo[|e.undo| - 1] && |r.redo| > 0 && r.redo[|r.redo| - 1] == e.html
    ensures |r.undo| + |r.redo| == |e.undo| + |e.redo|
    ensures r.media == e.media && r.content == e.content
  {
    if |e.undo| == 0 then e
    else e.(html := e.undo[|e.undo| - 1], undo := e.undo[..|e.undo| - 1], redo := e.redo + [e.html])
  }

  /** `redo`: symmetric to `undo`; the undo stack grows without the limit check. */
  function Redo(e: Editor): (r: Editor)
    ensures |e.redo| == 0 ==> r == e
    ensures |e.redo| > 0 ==> r.html == e.redo[|e.redo| - 1] && |r.undo| > 0 && r.undo[|r.undo| - 1] == e.html
    ensures |r.undo| + |r.redo| == |e.undo| + |e.redo|
    ensures r.media == e.media && r.content == e.content
  {
    if |e.redo| == 0 then e
    else e.(html := e.redo[|e.redo| - 1], redo := e.redo[..|e.redo| - 1], undo := e.undo + [e.html])
  }

  /** A direct undo followed by a redo restores the editor, and the other way round. */
  lemma UndoRedoRoundTrip(e: Editor)
    ensures |e.undo| > 0 ==> Redo(Undo(e)) == e
    ensures |e.redo| > 0 ==> Undo(Redo(e)) == e
  {
    if |e.undo| > 0 {
      assert e.undo[..|e.undo| - 1] + [e.undo[|e.undo| - 1]] == e.undo;
    }
    if |e.redo| > 0 {
      assert e.redo[..|e.redo| - 1] + [e.redo[|e.redo| - 1]] == e.redo;
    }
  }

  /** Saving, undoing and redoing keep the history within its limit, so the undo stack never
      holds more than 100 snapshots even though `redo` pushes without checking. */
  lemma HistoryStaysBounded(e: Editor)
    requires Bounded(e)
    ensures Bounded(SaveToHistory(e)) && Bounded(Undo(e)) && Bounded(Redo(e))
    ensures |e.undo| <= HistoryLimit
  {
  }

  /** `executeCommand` as written: every command, `undo` and `redo` included, first saves the
      current HTML to the history. */
  function ExecuteCommandAsWritten(e: Editor, command: string, exec: (string, string) -> string): (r: Editor)
    ensures command == "undo" ==> r.html == e.html && r.redo == [e.html] && r.undo == SaveToHistory(e).undo[..|SaveToHistory(e).undo| - 1]
    ensures command == "redo" ==> r.html == e.html && r.redo == [] && r.undo == SaveToHistory(e).undo
    ensures command != "undo" && command != "redo" ==> r == ExecuteCommand(e, command, exec)
    ensures r.media == e.media && r.content == e.content
  {
    var saved := SaveToHistory(e);
    if command == "undo" then Undo(saved)
    else if command == "redo" then Redo(saved)
    else saved.(html := exec(command, saved.html))
  }

  /** As written, the undo and redo commands never change what the user sees: `undo` restores the
      snapshot just taken, and `redo` finds the redo stack just emptied. */
  lemma HistoryCommandsAreNoOps(e: Editor, exec: (string, string) -> string)
    ensures ExecuteCommandAsWritten(e, "undo", exec).html == e.html
    ensures ExecuteCommandAsWritten(e, "undo", exec).redo == [e.html]
    ensures ExecuteCommandAsWritten(e, "redo", exec).html == e.html
    ensures ExecuteCommandAsWritten(e, "redo", exec).redo == []
  {
  }

  /** A concrete case: after editing "a" into "b", the undo command leaves "b" on screen. */
  lemma UndoCommandDoesNotUndo(exec: (string, string) -> string)
    ensures var e := Editor("b", "b", map[], ["a"], []);
            Undo(e).html == "a" && ExecuteCommandAsWritten(e, "undo", exec).html == "b"
  {
  }

  /** `executeCommand` with history commands routed straight to `undo` and `redo`. */
  function ExecuteCommand(e: Editor, command: string, exec: (string, string) -> string): (r: Editor)
    ensures command == "undo" ==> r == Undo(e)
    ensures command == "redo" ==> r == Redo(e)
    ensures command != "undo" && command != "redo" ==>
              r.html == exec(command, e.html) && r.undo == SaveToHistory(e).undo && r.redo == []
  {
    if command == "undo" then Undo(e)
    else if command == "redo" then Redo(e)
    else
      var saved := SaveToHistory(e);
      saved.(html := exec(command, saved.html))
  }

  /** With the correction, a formatting command can be undone and the undo redone. */
  lemma CommandUndoRedo(e: Editor, command: string, exec: (string, string) -> string)
    requires command != "undo" && command != "redo"
    ensures var done := ExecuteCommand(e, command, exec);
            var undone := ExecuteCommand(done, "undo", exec);
            undone.html == e.html
            && ExecuteCommand(undone, "redo", exec).html == exec(command, e.html)
  {
  }

  // ---------------------------------------------------------------------------------------
  // Files

  /** A file passes both checks: an allowed type and a size within the limit. */
  predicate Admitted(opts: Options, f: File) {
    f.mime in opts.allowedFileTypes && f.size <= opts.maxFileSize
  }

  /** Where the page's selection is when a preview goes in: `getSelection()` with no range (a
      freshly loaded page), a range outside the editor, or the caret inside the editor. */
  datatype Caret = NoRange | Outside | InEditor

  /** File `i` is stored: it is admitted, and no earlier admitted file ended the handling. With
      no range, `getRangeAt(0)` throws after the first admitted file is stored, rejecting the
      `handleFiles` promise. */
  predicate Handled(opts: Options, files: seq<File>, caret: Caret, i: int)
    requires 0 <= i < |files|
  {
    Admitted(opts, files[i]) && (caret == NoRange ==> forall j | 0 <= j < i :: !Admitted(opts, files[j]))
  }

  /** The admitted files with their ids, in order: the previews that go in. */
  function Shown(opts: Options, files: seq<File>, ids: seq<string>): (r: seq<(string, File)>)
    requires |ids| == |files|
    ensures |r| <= |files|
  {
    if |files| == 0 then []
    else (if Admitted(opts, files[0]) then [(ids[0], files[0])] else []) + Shown(opts, files[1..], ids[1..])
  }

  /** The editor's HTML after the previews are inserted at the caret one after another: the
      range collapses after each preview, so the next goes in behind it. `insert(html, id, f)`
      is the HTML with the preview of `f` under media id `id` inserted at the caret. */
  function Previews(html: string, items: seq<(string, File)>, insert: (string, string, File) -> string): string
    decreases |items|
  {
    if |items| == 0 then html else Previews(insert(html, items[0].0, items[0].1), items[1..], insert)
  }

  /** An admitted first file's preview goes in first. */
  lemma ShownCons(opts: Options, files: seq<File>, ids: seq<string>, html: string,
                  insert: (string, string, File) -> string)
    requires |ids| == |files| > 0 && Admitted(opts, files[0])
    ensures Previews(html, Shown(opts, files, ids), insert)
            == Previews(insert(html, ids[0], files[0]), Shown(opts, files[1..], ids[1..]), insert)
  {
    var items := Shown(opts, files, ids);
    assert items == [(ids[0], files[0])] + Shown(opts, files[1..], ids[1..]);
    assert items[1..] == Shown(opts, files[1..], ids[1..]);
  }

  /** `handleFiles` given the media id each file would get: an admitted file is stored under its
      id and its preview inserted at the selection; a rejected file is skipped. */
  function HandleFilesWith(e: Editor, opts: Options, files: seq<File>, ids: seq<string>, caret: Caret,
                           insert: (string, string, File) -> string): (r: Editor)
    requires |ids| == |files|
    ensures r.content == e.content && r.undo == e.undo && r.redo == e.redo
    ensures caret != InEditor ==> r.html == e.html
    ensures caret == InEditor ==> r.html == Previews(e.html, Shown(opts, files, ids), insert)
    ensures r.media.Keys == e.media.Keys + set i | 0 <= i < |files| && Handled(opts, files, caret, i) :: ids[i]
    ensures (forall i | 0 <= i < |files| :: !Admitted(opts, files[i])) ==> r == e
    decreases |files|
  {
    if |files| == 0 then e
    else
      HandledIds(opts, files, ids, caret);
      if !Admitted(opts, files[0]) then
        assert Shown(opts, files, ids) == Shown(opts, files[1..], ids[1..]);
        HandleFilesWith(e, opts, files[1..], ids[1..], caret, insert)
      else
        var stored := e.(media := e.media[ids[0] := files[0]]);
        if caret == NoRange then stored
        else
          var shown := if caret == InEditor then stored.(html := insert(stored.html, ids[0], files[0])) else stored;
          ShownCons(opts, files, ids, e.html, insert);
          HandleFilesWith(shown, opts, files[1..], ids[1..], caret, insert)
  }

  /** The ids of the stored files: the first file's, if it is stored, and then those of the rest
      unless the first file ended the handling. */
  lemma HandledIds(opts: Options, files: seq<File>, ids: seq<string>, caret: Caret)
    requires |ids| == |files| > 0
    ensures (set i | 0 <= i < |files| && Handled(opts, files, caret, i) :: ids[i])
            == (if Admitted(opts, files[0]) then {ids[0]} else {})
               + (if Admitted(opts, files[0]) && caret == NoRange then {}
                  else set i | 0 <= i < |files[1..]| && Handled(opts, files[1..], caret, i) :: ids[1..][i])
  {
    HandledShift(opts, files, caret);
    var a := set i | 0 <= i < |files| && Handled(opts, files, caret, i) :: ids[i];
    var b := set i | 0 <= i < |files[1..]| && Handled(opts, files[1..], caret, i) :: ids[1..][i];
    if !Admitted(opts, files[0]) || caret != NoRange {
      forall x | x in b ensures x in a {
        var i :| 0 <= i < |files[1..]| && Handled(opts, files[1..], caret, i) && x == ids[1..][i];
        assert ids[1..][i] == ids[i + 1];
      }
      forall x | x in a && x != ids[0] ensures x in b {
        var i :| 0 <= i < |files| && Handled(opts, files, caret, i) && x == ids[i];
        assert i > 0 && ids[1..][i - 1] == ids[i];
      }
    }
  }

  /** Past the first file, a file is stored exactly when it is stored from the rest of the
      batch, unless the first file ended the handling. */
  lemma HandledShift(opts: Options, files: seq<File>, caret: Caret)
    requires |files| > 0
    ensures Admitted(opts, files[0]) ==> Handled(opts, files, caret, 0)
    ensures Admitted(opts, files[0]) && caret == NoRange ==> forall i | 1 <= i < |files| :: !Handled(opts, files, caret, i)
    ensures !Admitted(opts, files[0]) || caret != NoRange ==>
              forall i | 1 <= i < |files| :: Handled(opts, files, caret, i) == Handled(opts, files[1..], caret, i - 1)
  {
    assert forall i | 1 <= i < |files| :: files[i] == files[1..][i - 1];
  }

  /** An id that no stored file of the batch is given keeps its entry, or its absence. */
  lemma {:induction false} HandleFilesWithFrame(e: Editor, opts: Options, files: seq<File>, ids: seq<string>,
                                                caret: Caret, insert: (string, string, File) -> string, id: string)
    requires |ids| == |files|
    requires forall i | 0 <= i < |files| && Handled(opts, files, caret, i) :: ids[i] != id
    ensures var r := HandleFilesWith(e, opts, files, ids, caret, insert);
            (id in r.media <==> id in e.media) && (id in e.media ==> r.media[id] == e.media[id])
    decreases |files|
  {
    if |files| > 0 {
      if !Admitted(opts, files[0]) || caret != NoRange {
        var e' := if !Admitted(opts, files[0]) then e
                  else var stored := e.(media := e.media[ids[0] := files[0]]);
                       if caret == InEditor then stored.(html := insert(stored.html, ids[0], files[0])) else stored;
        forall i | 0 <= i < |files[1..]| && Handled(opts, files[1..], caret, i) ensures ids[1..][i] != id {
          assert files[1..][i] == files[i + 1] && ids[1..][i] == ids[i + 1];
          assert Handled(opts, files, caret, i + 1);
        }
        if Admitted(opts, files[0]) {
          assert Handled(opts, files, caret, 0);
        }
        HandleFilesWithFrame(e', opts, files[1..], ids[1..], caret, insert, id);
      } else {
        assert Handled(opts, files, caret, 0);
      }
    }
  }

  /** When the stored files' ids are distinct, every stored file is kept under its own id. */
  lemma {:induction false} HandleFilesWithStores(e: Editor, opts: Options, files: seq<File>, ids: seq<string>,
                                                 caret: Caret, insert: (string, string, File) -> string)
    requires |ids| == |files|
    requires forall i, j | 0 <= i < j < |files| && Handled(opts, files, caret, i) && Handled(opts, files, caret, j) ::
               ids[i] != ids[j]
    ensures var r := HandleFilesWith(e, opts, files, ids, caret, insert);
            forall i | 0 <= i < |files| && Handled(opts, files, caret, i) :: ids[i] in r.media && r.media[ids[i]] == files[i]
    decreases |files|
  {
    if |files| > 0 {
      var r := HandleFilesWith(e, opts, files, ids, caret, insert);
      if !Admitted(opts, files[0]) || caret != NoRange {
        var e' := if !Admitted(opts, files[0]) then e
                  else var stored := e.(media := e.media[ids[0] := files[0]]);
                       if caret == InEditor then stored.(html := insert(stored.html, ids[0], files[0])) else stored;
        assert r == HandleFilesWith(e', opts, files[1..], ids[1..], caret, insert);
        assert forall i | 1 <= i < |files| :: Handled(opts, files, caret, i) == Handled(opts, files[1..], caret, i - 1) by {
          forall i | 1 <= i < |files| ensures files[i] == files[1..][i - 1] {}
        }
        HandleFilesWithStores(e', opts, files[1..], ids[1..], caret, insert);
        forall i | 0 <= i < |files| && Handled(opts, files, caret, i) ensures ids[i] in r.media && r.media[ids[i]] == files[i] {
          if i == 0 {
            forall k | 0 <= k < |files[1..]| && Handled(opts, files[1..], caret, k) ensures ids[1..][k] != ids[0] {
              assert ids[1..][k] == ids[k + 1] && Handled(opts, files, caret, k + 1);
            }
            HandleFilesWithFrame(e', opts, files[1..], ids[1..], caret, insert, ids[0]);
          } else {
            assert files[1..][i - 1] == files[i] && ids[1..][i - 1] == ids[i];
          }
        }
      } else {
        assert forall i | 1 <= i < |files| :: !Handled(opts, files, caret, i);
      }
    }
  }

  /** The ids `handleFiles` gives as written: the millisecond reading taken for each file. */
  function ClockIds(clock: seq<nat>): (r: seq<string>)
    ensures |r| == |clock|
    ensures forall i | 0 <= i < |clock| :: r[i] == Text.NatToDecimal(clock[i])
  {
    seq(|clock|, i requires 0 <= i < |clock| => Text.NatToDecimal(clock[i]))
  }

  /** `handleFiles` as written: each admitted file is stored under the current time in
      milliseconds, `clock[i]` being the reading taken for `files[i]`, and its preview inserted
      at the selection; with no selection range the first stored file ends the handling. */
  function HandleFilesAsWritten(e: Editor, opts: Options, files: seq<File>, clock: seq<nat>, caret: Caret,
                                insert: (string, string, File) -> string): (r: Editor)
    requires |clock| == |files|
    ensures r.content == e.content && r.undo == e.undo && r.redo == e.redo
    ensures caret != InEditor ==> r.html == e.html
    ensures caret == InEditor ==> r.html == Previews(e.html, Shown(opts, files, ClockIds(clock)), insert)
    ensures r.media.Keys == e.media.Keys +
              set i | 0 <= i < |files| && Handled(opts, files, caret, i) :: Text.NatToDecimal(clock[i])
    ensures (forall i | 0 <= i < |files| :: !Admitted(opts, files[i])) ==> r == e
  {
    var ids := ClockIds(clock);
    var r := HandleFilesWith(e, opts, files, ids, caret, insert);
    assert (set i | 0 <= i < |files| && Handled(opts, files, caret, i) :: ids[i])
        == (set i | 0 <= i < |files| && Handled(opts, files, caret, i) :: Text.NatToDecimal(clock[i]));
    r
  }

  /** Two files admitted within the same millisecond share an id: with a selection range the
      first is lost; with none, the first is stored and the second never handled. */
  lemma SameMillisecondLosesFile(f1: File, f2: File, t: nat, caret: Caret, insert: (string, string, File) -> string)
    requires Admitted(DefaultOptions, f1) && Admitted(DefaultOptions, f2)
    ensures var e := Editor("", "", map[], [], []);
            var r := HandleFilesAsWritten(e, DefaultOptions, [f1, f2], [t, t], caret, insert);
            r.media == map[Text.NatToDecimal(t) := if caret == NoRange then f1 else f2]
  {
    var e := Editor("", "", map[], [], []);
    var ids := ClockIds([t, t]);
    var id := Text.NatToDecimal(t);
    assert ids == [id, id];
    var first := e.(media := map[id := f1]);
    assert HandleFilesAsWritten(e, DefaultOptions, [f1, f2], [t, t], caret, insert)
        == HandleFilesWith(e, DefaultOptions, [f1, f2], [id, id], caret, insert);
    if caret != NoRange {
      var e' := if caret == InEditor then first.(html := insert(first.html, id, f1)) else first;
      assert [f1, f2][1..] == [f2] && [id, id][1..] == [id];
      assert HandleFilesWith(e, DefaultOptions, [f1, f2], [id, id], caret, insert)
          == HandleFilesWith(e', DefaultOptions, [f2], [id], caret, insert);
      assert [f2][1..] == [] && [id][1..] == [];
    }
  }

  /** The id for the `i`-th file of a batch handled at time `t`: the time, a dash, the index. */
  function MediaId(t: nat, i: nat): string {
    Text.NatToDecimal(t) + "-" + Text.NatToDecimal(i)
  }

  lemma MediaIdInjective(t: nat, i: nat, u: nat, j: nat)
    requires MediaId(t, i) == MediaId(u, j)
    ensures t == u && i == j
  {
    var a, b := Text.NatToDecimal(t), Text.NatToDecimal(u);
    var x := MediaId(t, i);
    assert forall k | 0 <= k < |a| :: x[k] == a[k];
    assert forall k | 0 <= k < |b| :: x[k] == b[k];
    assert x[|a|] == '-' && x[|b|] == '-';
    assert |a| == |b|;
    assert a == x[..|a|] == b;
    assert Text.NatToDecimal(i) == x[|a| + 1..] == Text.NatToDecimal(j);
    Text.NatToDecimalInjective(t, u);
    Text.NatToDecimalInjective(i, j);
  }

  /** The corrected ids: the reading and the file's place in the batch. */
  function BatchIds(clock: seq<nat>): (r: seq<string>)
    ensures |r| == |clock|
    ensures forall i | 0 <= i < |clock| :: r[i] == MediaId(clock[i], i)
    ensures forall i, j | 0 <= i < j < |clock| :: r[i] != r[j]
  {
    var r := seq(|clock|, i requires 0 <= i < |clock| => MediaId(clock[i], i));
    forall i, j | 0 <= i < j < |clock| ensures r[i] != r[j] {
      if r[i] == r[j] {
        MediaIdInjective(clock[i], i, clock[j], j);
      }
    }
    r
  }

  /** The corrected `handleFiles`: every file it stores is kept under its own id, entries
      already present stay unless a new id replaces them, and nothing else is added; the
      previews and the stop at a missing selection range are as written. */
  function HandleFiles(e: Editor, opts: Options, files: seq<File>, clock: seq<nat>, caret: Caret,
                       insert: (string, string, File) -> string): (r: Editor)
    requires |clock| == |files|
    ensures r.content == e.content && r.undo == e.undo && r.redo == e.redo
    ensures caret != InEditor ==> r.html == e.html
    ensures caret == InEditor ==> r.html == Previews(e.html, Shown(opts, files, BatchIds(clock)), insert)
    ensures forall i | 0 <= i < |files| && Handled(opts, files, caret, i) ::
              MediaId(clock[i], i) in r.media && r.media[MediaId(clock[i], i)] == files[i]
    ensures forall id | id in r.media && !(exists i | 0 <= i < |files| && Handled(opts, files, caret, i) :: id == MediaId(clock[i], i)) ::
              id in e.media && r.media[id] == e.media[id]
    ensures (forall i | 0 <= i < |files| :: !Admitted(opts, files[i])) ==> r == e
  {
    var ids := BatchIds(clock);
    var r := HandleFilesWith(e, opts, files, ids, caret, insert);
    HandleFilesWithStores(e, opts, files, ids, caret, insert);
    forall id | !(exists i | 0 <= i < |files| && Handled(opts, files, caret, i) :: id == MediaId(clock[i], i))
      ensures (id in r.media <==> id in e.media) && (id in e.media ==> r.media[id] == e.media[id])
    {
      HandleFilesWithFrame(e, opts, files, ids, caret, insert, id);
    }
    r
  }

  /** With no selection range, a batch of two admitted files stores only the first: the throw
      in the preview step ends the handling. */
  lemma NoRangeStoresFirstOnly(f1: File, f2: File, t1: nat, t2: nat, insert: (string, string, File) -> string)
    requires Admitted(DefaultOptions, f1) && Admitted(DefaultOptions, f2)
    ensures HandleFiles(Editor("", "", map[], [], []), DefaultOptions, [f1, f2], [t1, t2], NoRange, insert).media
            == map[MediaId(t1, 0) := f1]
  {
    var ids := BatchIds([t1, t2]);
    assert ids[0] == MediaId(t1, 0);
  }

  /** With the caret in the editor, each admitted file's preview goes into the editor's HTML,
      in order. */
  lemma CaretInEditorInsertsPreviews(f1: File, f2: File, t1: nat, t2: nat, insert: (string, string, File) -> string)
    requires Admitted(DefaultOptions, f1) && Admitted(DefaultOptions, f2)
    ensures HandleFiles(Editor("", "", map[], [], []), DefaultOptions, [f1, f2], [t1, t2], InEditor, insert).html
            == insert(insert("", MediaId(t1, 0), f1), MediaId(t2, 1), f2)
  {
    var ids := BatchIds([t1, t2]);
    var files := [f1, f2];
    assert ids[0] == MediaId(t1, 0) && ids[1] == MediaId(t2, 1);
    assert files[1..] == [f2] && ids[1..] == [ids[1]];
    assert [f2][1..] == [] && [ids[1]][1..] == [];
    var items := Shown(DefaultOptions, files, ids);
    assert Shown(DefaultOptions, [f2], [ids[1]]) == [(ids[1], f2)];
    assert items == [(ids[0], f1), (ids[1], f2)];
    assert items[1..] == [(ids[1], f2)] && items[1..][1..] == [];
    var h1 := insert("", ids[0], f1);
    assert Previews("", items, insert) == Previews(h1, items[1..], insert);
    assert Previews(h1, items[1..], insert) == Previews(insert(h1, ids[1], f2), [], insert);
  }

  // ---------------------------------------------------------------------------------------
  // Counts and reset

  /** The status bar: `text.trim().split(/\s+/).length` words and `text.length` characters. */
  function WordCount(text: string): (r: (nat, nat))
    ensures r.1 == |text|
    ensures r.0 >= 1
  {
    (|Text.SplitOnRuns(Text.Trim(text), Text.Whitespace)|, |text|)
  }

  /** The word count is the number of whitespace-separated words, except that text with no words
      counts as one. */
  lemma WordCountCountsWords(text: string)
    ensures WordCount(text).0 ==
            if Text.Trim(text) == [] then 1 else Text.WordStarts(Text.Trim(text), Text.Whitespace, true)
  {
    var t := Text.Trim(text);
    if t != [] {
      Text.SplitOnRunsCountsWords(t, Text.Whitespace);
    }
  }

  /** `clear`: empty content, no media, no history. */
  function Clear(e: Editor): (r: Editor)
    ensures r.html == "" && r.content == "" && r.media == map[] && r.undo == [] && r.redo == []
  {
    Editor("", "", map[], [], [])
  }

  /** After `clear` there is nothing to undo or redo, and the word count shows one word. */
  lemma ClearForgetsHistory(e: Editor)
    ensures Undo(Clear(e)) == Clear(e) && Redo(Clear(e)) == Clear(e)
    ensures Bounded(Clear(e))
    ensures WordCount(Clear(e).html) == (1, 0)
  {
    assert Text.SplitOnRuns("", Text.Whitespace) == [[]];
  }
}
