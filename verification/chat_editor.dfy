/** The chat editor: the list of message rows, its add/delete/edit
    transitions, and the chat-markup prompt string built from the rows for
    the selected chat model. */
module ChatEditor {
  import opened Seqs

  datatype ChatModel = Gpt4 | Gpt4_32k | Gpt35Turbo

  /** One message row; `name` is used only by the "system-name" role. */
  datatype Row = Row(role: string, message: string, name: string)

  const ImStart: string := "<|im_start|>"
  const ImEnd: string := "<|im_end|>"
  const ImSep: string := "<|im_sep|>"
  const AssistantCue: string := "<|im_start|>assistant"

  /** Separator between blocks: a newline for gpt-3.5-turbo, nothing for
      the gpt-4 models. */
  function BlockSeparator(model: ChatModel): string
  {
    if model == Gpt35Turbo then "\n" else ""
  }

  /** Separator between a block's header and its message. */
  function HeaderSeparator(model: ChatModel): string
  {
    if model == Gpt35Turbo then "\n" else ImSep
  }

  /** `[role === "system-name" ? name : role].filter(Boolean).join(" ")`:
      the name for a custom-named row and the role otherwise; an empty name
      gives an empty header. */
  function Header(row: Row): (h: string)
    ensures row.role == "system-name" ==> h == row.name
    ensures row.role != "system-name" ==> h == row.role
  {
    var shown := if row.role == "system-name" then row.name else row.role;
    NonEmptyCons(shown, []);
    JoinShort(shown, "", " ");
    assert [shown] + [] == [shown];
    Join(NonEmpty([shown]), " ")
  }

  /** One row's block: opened by `<|im_start|>` and closed by `<|im_end|>`. */
  function Block(model: ChatModel, row: Row): (b: string)
    ensures |b| >= |ImStart| + |row.message| + |ImEnd|
    ensures b[..|ImStart|] == ImStart
    ensures b[|b| - |ImEnd|..] == ImEnd
  {
    ImStart + Header(row) + HeaderSeparator(model) + row.message + ImEnd
  }

  /** The message sits just before the closing tag of its block. */
  lemma BlockEndsWithMessage(model: ChatModel, row: Row)
    ensures var b := Block(model, row);
            b[|b| - |ImEnd| - |row.message|..|b| - |ImEnd|] == row.message
  {
  }

  function Blocks(model: ChatModel, rows: seq<Row>): (blocks: seq<string>)
    ensures |blocks| == |rows|
  {
    seq(|rows|, i requires 0 <= i < |rows| => Block(model, rows[i]))
  }

  /** The prompt: the joined blocks and the assistant cue, empty parts
      dropped, joined with the block separator. Without rows the joined
      blocks are empty and the prompt is the cue alone; with rows it is the
      joined blocks, one separator, and the cue. */
  function Prompt(model: ChatModel, rows: seq<Row>): (p: string)
    ensures |rows| == 0 ==> p == AssistantCue
    ensures |rows| > 0 ==> p == Join(Blocks(model, rows), BlockSeparator(model)) + BlockSeparator(model) + AssistantCue
  {
    var sep := BlockSeparator(model);
    var body := Join(Blocks(model, rows), sep);
    NoBlocksIffNoRows(model, rows);
    CueAfterBody(body, sep);
    Join(NonEmpty([body, AssistantCue]), sep)
  }

  /** The joined blocks are empty exactly when there are no rows. */
  lemma NoBlocksIffNoRows(model: ChatModel, rows: seq<Row>)
    ensures Join(Blocks(model, rows), BlockSeparator(model)) == "" <==> |rows| == 0
  {
    if |rows| > 0 {
      JoinStartsWithFirst(Blocks(model, rows), BlockSeparator(model));
    } else {
      assert Blocks(model, rows) == [];
    }
  }

  /** `[body, cue].filter(Boolean).join(sep)`: an empty body is dropped. */
  lemma CueAfterBody(body: string, sep: string)
    ensures body == "" ==> Join(NonEmpty([body, AssistantCue]), sep) == AssistantCue
    ensures body != "" ==> Join(NonEmpty([body, AssistantCue]), sep) == body + sep + AssistantCue
  {
    NonEmptyCons(AssistantCue, []);
    NonEmptyCons(body, [AssistantCue]);
    assert [body, AssistantCue] == [body] + [AssistantCue];
    assert [AssistantCue] + [] == [AssistantCue];
    JoinShort(AssistantCue, "", sep);
    JoinShort(body, AssistantCue, sep);
  }

  /** The prompt is one block per row, in row order, each followed by the
      separator, then the assistant cue. */
  lemma PromptIsBlocksInRowOrder(model: ChatModel, rows: seq<Row>)
    ensures Prompt(model, rows) == Terminated(Blocks(model, rows), BlockSeparator(model)) + AssistantCue
  {
    if |rows| > 0 {
      JoinThenSep(Blocks(model, rows), BlockSeparator(model), AssistantCue);
    } else {
      assert Blocks(model, rows) == [];
    }
  }

  /** Role of a newly added row: "system" for the first row, "assistant"
      after a user row, "user" otherwise. */
  function NewRole(rows: seq<Row>): (role: string)
    ensures role == "system" || role == "user" || role == "assistant"
    ensures role == "system" <==> |rows| == 0
    ensures role == "assistant" <==> |rows| > 0 && rows[|rows| - 1].role == "user"
  {
    if |rows| == 0 then "system"
    else if rows[|rows| - 1].role == "user" then "assistant"
    else "user"
  }

  /** Appends one empty row with the role chosen by `NewRole`. */
  function AddRow(rows: seq<Row>): (r: seq<Row>)
    ensures |r| == |rows| + 1
    ensures r[..|rows|] == rows
    ensures r[|rows|].message == "" && r[|rows|].name == ""
    ensures |rows| == 0 ==> r[0].role == "system"
    ensures |rows| > 0 && rows[|rows| - 1].role == "user" ==> r[|rows|].role == "assistant"
    ensures |rows| > 0 && rows[|rows| - 1].role != "user" ==> r[|rows|].role == "user"
  {
    rows + [Row(NewRole(rows), "", "")]
  }

  /** Pressing "add" `n` times. */
  function AddRows(rows: seq<Row>, n: nat): seq<Row>
    decreases n
  {
    if n == 0 then rows else AddRows(AddRow(rows), n - 1)
  }

  lemma {:induction false} AddRowsKeepsPrefix(rows: seq<Row>, n: nat)
    ensures |AddRows(rows, n)| == |rows| + n
    ensures AddRows(rows, n)[..|rows|] == rows
    decreases n
  {
    if n > 0 {
      AddRowsKeepsPrefix(AddRow(rows), n - 1);
      var r := AddRows(AddRow(rows), n - 1);
      assert r[..|rows|] == r[..|rows| + 1][..|rows|];
    }
  }

  /** Role of the `i`-th row added to an empty list. */
  function AlternatingRole(i: nat): string
  {
    if i == 0 then "system" else if i % 2 == 1 then "user" else "assistant"
  }

  /** Starting from no rows, repeated adds give a system row and then
      alternating user and assistant rows. */
  lemma {:induction false} AddedRolesAlternate(n: nat)
    ensures |AddRows([], n)| == n
    ensures forall i :: 0 <= i < n ==> AddRows([], n)[i].role == AlternatingRole(i)
    decreases n
  {
    AddRowsKeepsPrefix([], n);
    if n > 0 {
      var prev := AddRows([], n - 1);
      var cur := AddRows([], n);
      AddedRolesAlternate(n - 1);
      AddRowsSplit([], n - 1);
      assert cur == AddRow(prev);
      NextAlternatingRole(prev);
      assert cur[n - 1].role == AlternatingRole(n - 1);
      forall i | 0 <= i < n - 1
        ensures cur[i].role == AlternatingRole(i)
      {
        assert cur[i] == cur[..n - 1][i] == prev[i];
      }
    }
  }

  /** The role added after rows that alternate is the next in turn. */
  lemma NextAlternatingRole(prev: seq<Row>)
    requires forall i :: 0 <= i < |prev| ==> prev[i].role == AlternatingRole(i)
    ensures NewRole(prev) == AlternatingRole(|prev|)
  {
    if |prev| > 0 {
      assert prev[|prev| - 1].role == AlternatingRole(|prev| - 1);
    }
  }

  lemma {:induction false} AddRowsSplit(rows: seq<Row>, n: nat)
    ensures AddRows(rows, n + 1) == AddRow(AddRows(rows, n))
    decreases n
  {
    if n > 0 {
      AddRowsSplit(AddRow(rows), n - 1);
    }
  }

  /** `splice(i, 1)`: removes row `i`; an index past the end removes
      nothing. */
  function DeleteRow(rows: seq<Row>, i: nat): (r: seq<Row>)
    ensures i < |rows| ==> |r| == |rows| - 1
    ensures i < |rows| ==> forall j :: 0 <= j < i ==> r[j] == rows[j]
    ensures i < |rows| ==> forall j :: i <= j < |r| ==> r[j] == rows[j + 1]
    ensures i >= |rows| ==> r == rows
  {
    if i < |rows| then rows[..i] + rows[i + 1..] else rows
  }

  /** Deleting the row just added restores the list. */
  lemma DeleteUndoesAdd(rows: seq<Row>)
    ensures DeleteRow(AddRow(rows), |rows|) == rows
  {
  }

  function SetRole(rows: seq<Row>, i: nat, role: string): (r: seq<Row>)
    requires i < |rows|
    ensures |r| == |rows|
    ensures forall j :: 0 <= j < |rows| && j != i ==> r[j] == rows[j]
    ensures r[i].role == role && r[i].message == rows[i].message && r[i].name == rows[i].name
  {
    rows[i := rows[i].(role := role)]
  }

  function SetName(rows: seq<Row>, i: nat, name: string): (r: seq<Row>)
    requires i < |rows|
    ensures |r| == |rows|
    ensures forall j :: 0 <= j < |rows| && j != i ==> r[j] == rows[j]
    ensures r[i].name == name && r[i].role == rows[i].role && r[i].message == rows[i].message
  {
    rows[i := rows[i].(name := name)]
  }

  function SetMessage(rows: seq<Row>, i: nat, message: string): (r: seq<Row>)
    requires i < |rows|
    ensures |r| == |rows|
    ensures forall j :: 0 <= j < |rows| && j != i ==> r[j] == rows[j]
    ensures r[i].message == message && r[i].role == rows[i].role && r[i].name == rows[i].name
  {
    rows[i := rows[i].(message := message)]
  }

  /** Editing row `i` changes only block `i` of the prompt, and restoring
      the old message restores the rows. */
  lemma EditTouchesOneBlock(model: ChatModel, rows: seq<Row>, i: nat, message: string)
    requires i < |rows|
    ensures var edited := SetMessage(rows, i, message);
            && forall j :: 0 <= j < |rows| && j != i ==> Blocks(model, edited)[j] == Blocks(model, rows)[j]
    ensures SetMessage(SetMessage(rows, i, message), i, rows[i].message) == rows
  {
  }
}
