/**
 * The pure part of reading the game board: turning one row's tile states and
 * letters into its digits, its "submitted" flag and its code (readDivBoard /
 * readShadowBoard), and splitting the rows into submitted observations and
 * the row being typed (getSnapshot). Querying the page itself is not modelled.
 */
module Board {
  import opened Basics
  import opened Feedback
  import opened CandidateFilter

  /** One board row as the readers record it. */
  datatype Row = Row(letters: string, digits: seq<Option<int>>, evalCode: Option<int>, submitted: bool)

  /** The evalMap lookup of a tile state: absent 0, present 1, correct 2, anything else null. */
  function EvalDigit(state: Option<string>): (d: Option<int>)
    ensures d.Some? ==> Absent <= d.value <= Correct
  {
    if state == Some("absent") then Some(Absent)
    else if state == Some("present") then Some(Present)
    else if state == Some("correct") then Some(Correct)
    else None
  }

  predicate AllSome(ds: seq<Option<int>>)
  {
    forall k :: 0 <= k < |ds| ==> ds[k].Some?
  }

  function Values(ds: seq<Option<int>>): seq<int>
    requires AllSome(ds)
  {
    seq(|ds|, k requires 0 <= k < |ds| => ds[k].value)
  }

  /**
   * One row of five tiles, given the joined letters and the five state
   * attributes: it is submitted when every state names a verdict and all five
   * letters are present, and its code then is the base-3 fold of the digits.
   */
  function ReadRow(letters: string, states: seq<Option<string>>): (r: Row)
    requires |states| == WordLength
    ensures r.letters == letters && |r.digits| == WordLength
    ensures forall k :: 0 <= k < WordLength ==> r.digits[k] == EvalDigit(states[k])
    ensures r.submitted <==> |letters| == WordLength && forall k :: 0 <= k < WordLength ==> EvalDigit(states[k]).Some?
    ensures r.submitted ==>
              r.evalCode.Some? && 0 <= r.evalCode.value < CodeCount
              && Decode(r.evalCode.value, WordLength) == Values(r.digits)
    ensures !r.submitted ==> r.evalCode.None?
  {
    var digits := seq(WordLength, k requires 0 <= k < WordLength => EvalDigit(states[k]));
    var submitted := AllSome(digits) && |letters| == WordLength;
    if submitted then
      var ds := Values(digits);
      assert IsDigits(ds);
      EncodeRange(ds);
      DecodeEncode(ds);
      Row(letters, digits, Some(Encode(ds)), true)
    else
      Row(letters, digits, None, false)
  }

  /** What every row built by ReadRow satisfies, and what getSnapshot relies on. */
  predicate WellFormedRow(r: Row)
  {
    r.submitted ==> |r.letters| == WordLength && r.evalCode.Some? && 0 <= r.evalCode.value < CodeCount
  }

  predicate WellFormedBoard(board: seq<Row>)
  {
    forall i :: 0 <= i < |board| ==> WellFormedRow(board[i])
  }

  /** A row still being typed: not submitted, with at least one letter. */
  predicate IsTyping(r: Row)
  {
    !r.submitted && |r.letters| > 0
  }

  /** `board.filter(r => r.submitted).map(r => ({ guess: r.letters, evalCode: r.evalCode }))` */
  function SubmittedRows(board: seq<Row>): (obs: seq<Observation>)
    requires WellFormedBoard(board)
    ensures ValidObservations(obs)
    ensures forall k :: 0 <= k < |obs| ==> 0 <= obs[k].evalCode < CodeCount
  {
    if |board| == 0 then []
    else
      (if board[0].submitted then [Observation(board[0].letters, board[0].evalCode.value)] else [])
      + SubmittedRows(board[1..])
  }

  /** `board.find(r => !r.submitted && r.letters.length > 0)`, as an index: the first typing row. */
  function FirstTyping(board: seq<Row>): (r: Option<nat>)
    ensures r.Some? ==>
              r.value < |board| && IsTyping(board[r.value])
              && forall j :: 0 <= j < r.value ==> !IsTyping(board[j])
    ensures r.None? ==> forall j :: 0 <= j < |board| ==> !IsTyping(board[j])
  {
    if |board| == 0 then None
    else if IsTyping(board[0]) then Some(0)
    else match FirstTyping(board[1..])
      case None => None
      case Some(i) => Some(i + 1)
  }

  datatype Snapshot = Snapshot(submitted: seq<Observation>, typed: string)

  /** The submitted rows as observations, and the letters of the row being typed (or ""). */
  function GetSnapshot(board: seq<Row>): (s: Snapshot)
    requires WellFormedBoard(board)
    ensures ValidObservations(s.submitted)
    ensures s.typed == "" <==> forall j :: 0 <= j < |board| ==> !IsTyping(board[j])
    ensures s.typed != "" ==>
              exists i :: 0 <= i < |board| && IsTyping(board[i]) && s.typed == board[i].letters
                          && forall j :: 0 <= j < i ==> !IsTyping(board[j])
  {
    var typed := match FirstTyping(board)
      case None => ""
      case Some(i) => board[i].letters;
    Snapshot(SubmittedRows(board), typed)
  }

  function SubmittedCount(rows: seq<Row>): nat
  {
    if |rows| == 0 then 0 else (if rows[0].submitted then 1 else 0) + SubmittedCount(rows[1..])
  }

  lemma {:induction false} SubmittedRowsLength(board: seq<Row>)
    requires WellFormedBoard(board)
    ensures |SubmittedRows(board)| == SubmittedCount(board)
  {
    if |board| > 0 {
      SubmittedRowsLength(board[1..]);
    }
  }

  /**
   * The submitted row at board index i is observation number k, where k counts
   * the submitted rows above it: the observations keep the board's order.
   */
  lemma {:induction false} SubmittedInBoardOrder(board: seq<Row>, i: nat)
    requires WellFormedBoard(board) && i < |board| && board[i].submitted
    ensures SubmittedCount(board[..i]) < |SubmittedRows(board)|
    ensures SubmittedRows(board)[SubmittedCount(board[..i])]
         == Observation(board[i].letters, board[i].evalCode.value)
  {
    SubmittedRowsLength(board);
    if i > 0 {
      var rest := board[1..];
      SubmittedInBoardOrder(rest, i - 1);
      assert board[..i] == [board[0]] + rest[..i - 1];
      assert board[..i][1..] == rest[..i - 1];
    }
  }

  /** Every observation is some submitted row, found at the position its count says. */
  lemma {:induction false} ObservationFromRow(board: seq<Row>, k: nat)
    requires WellFormedBoard(board) && k < |SubmittedRows(board)|
    ensures exists i :: 0 <= i < |board| && board[i].submitted && SubmittedCount(board[..i]) == k
                        && SubmittedRows(board)[k] == Observation(board[i].letters, board[i].evalCode.value)
  {
    var rest := board[1..];
    if board[0].submitted && k == 0 {
      assert board[..0] == [];
    } else {
      var k' := if board[0].submitted then k - 1 else k;
      ObservationFromRow(rest, k');
      var i :| 0 <= i < |rest| && rest[i].submitted && SubmittedCount(rest[..i]) == k'
               && SubmittedRows(rest)[k'] == Observation(rest[i].letters, rest[i].evalCode.value);
      assert board[..i + 1] == [board[0]] + rest[..i];
      assert board[..i + 1][1..] == rest[..i];
    }
  }
}
