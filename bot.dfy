/** The two handlers that drive the order table: `utr_handler` (a user
    submits a UTR) and `button_handler` (the administrator presses Approve or
    Reject). Chat replies become the outcome values the handlers return. */
module Bot {
  import opened Wrappers
  import opened Text
  import opened Utr
  import opened Payload
  import opened Orders

  /** The sender of a message: `update.effective_user`. */
  datatype User = User(id: int, username: Option<string>)

  /** `user.username or ""`. */
  function StoredUsername(username: Option<string>): string {
    match username
    case Some(name) => name
    case None => ""
  }

  /** What `utr_handler` answers: the "Invalid UTR" reply, or the saved code
      together with the two callback payloads sent to the administrator. */
  datatype SubmitOutcome =
    | InvalidUtr
    | Saved(utr: string, approveData: string, rejectData: string)

  /** What `button_handler` ends with. */
  datatype Decision =
    | NotAuthorized                        // "Not authorized" alert
    | Malformed(error: DecodeError)        // the handler raises
    | Decided(userId: int, status: Status) // `update_order` ran
    | Ignored(action: string, userId: int) // unknown tag: nothing happens

  /** `utr_handler`: strip, check against `^\d{12}$`, then save a PENDING
      order and offer the administrator the approve/reject buttons. */
  method HandleUtr(table: OrderTable, user: User, text: string) returns (outcome: SubmitOutcome)
    requires table.Valid()
    modifies table
    ensures table.Valid()
    ensures outcome.InvalidUtr? <==> !IsValidUtr(text)
    ensures outcome.InvalidUtr? ==> table.rows == old(table.rows) && table.nextId == old(table.nextId)
    ensures outcome.Saved? ==>
      && outcome == Saved(Strip(text), Encode(ApproveTag, user.id), Encode(RejectTag, user.id))
      && table.rows == old(table.rows) + [Order(old(table.nextId), user.id, StoredUsername(user.username), Strip(text), Pending)]
      && table.nextId == old(table.nextId) + 1
  {
    var code := Strip(text);
    if !MatchesUtrPattern(code) {
      return InvalidUtr;
    }
    table.Save(user.id, StoredUsername(user.username), code);
    outcome := Saved(code, Encode(ApproveTag, user.id), Encode(RejectTag, user.id));
  }

  /** `button_handler`: only the administrator may decide; the payload is
      decoded (a malformed one raises before any update); `approve` and
      `reject` overwrite the status of every order of that user, whatever
      it was, and any other tag changes nothing. */
  method HandleButton(table: OrderTable, adminId: int, actor: int, data: string) returns (d: Decision)
    requires table.Valid()
    modifies table
    ensures table.Valid() && table.nextId == old(table.nextId)
    ensures actor != adminId ==> d == NotAuthorized
    ensures actor == adminId && Decode(data).Failure? ==> d == Malformed(Decode(data).error)
    ensures actor == adminId && Decode(data).Success? ==>
      var cb := Decode(data).value;
      d == (if cb.action == ApproveTag then Decided(cb.userId, Approved)
            else if cb.action == RejectTag then Decided(cb.userId, Rejected)
            else Ignored(cb.action, cb.userId))
    ensures d.Decided? ==> table.rows == WithStatus(old(table.rows), d.userId, d.status)
    ensures !d.Decided? ==> table.rows == old(table.rows)
  {
    if actor != adminId {
      return NotAuthorized;
    }
    var decoded := Decode(data);
    if decoded.Failure? {
      return Malformed(decoded.error);
    }
    var cb := decoded.value;
    if cb.action == ApproveTag {
      table.Update(cb.userId, Approved);
      d := Decided(cb.userId, Approved);
    } else if cb.action == RejectTag {
      table.Update(cb.userId, Rejected);
      d := Decided(cb.userId, Rejected);
    } else {
      d := Ignored(cb.action, cb.userId);
    }
  }

  /** User 42 ("alice") submits a valid UTR, then the administrator approves
      through the button that submission produced. */
  method ExampleScenario(adminId: int) {
    var table := new OrderTable();
    var alice := User(42, Some("alice"));
    var code := "123456789012";
    assert MatchesUtrPattern(code);
    StripCodeOf([], code, []);
    assert [] + code + [] == code;
    var outcome := HandleUtr(table, alice, code);
    assert table.rows == [Order(1, 42, "alice", code, Pending)];
    DecodeButtons(42);
    var d := HandleButton(table, adminId, adminId, outcome.approveData);
    assert d == Decided(42, Approved);
    assert table.rows == [Order(1, 42, "alice", code, Approved)];
  }
}
