/**
 * The mutable state of the contact form: the selected photos, the status
 * line and the send button, with the three handlers that change them.
 * Rendering of previews and the request itself are outside the model; the
 * request's answer is a parameter of `Submit`.
 */
module ContactForm {
  import opened Wrappers
  import opened Feedback
  import opened Uploads
  import opened Submission

  const SendLabel := "Send"
  const SendingLabel := "Sending..."

  class ContactForm {
    var selected: seq<FileInfo>
    var status: Option<Status>
    var sendDisabled: bool
    var sendLabel: string

    /** The selection never holds more than `MaxFiles` photos. */
    ghost predicate Valid()
      reads this
    {
      |selected| <= MaxFiles
    }

    /** The page as loaded: nothing selected, no status, an enabled "Send" button. */
    constructor ()
      ensures Valid()
      ensures selected == [] && status == None && !sendDisabled && sendLabel == SendLabel
    {
      selected := [];
      status := None;
      sendDisabled := false;
      sendLabel := SendLabel;
    }

    /**
     * `handleFiles`: filter the batch, reporting each rejected file, then
     * admit the surviving files all together or not at all.
     */
    method HandleFiles(files: seq<FileInfo>)
      requires Valid()
      modifies this`selected, this`status
      ensures Valid()
      ensures |old(selected)| + |ValidFiles(files)| > MaxFiles ==>
        selected == old(selected) && status == Some(CapacityStatus())
      ensures |old(selected)| + |ValidFiles(files)| <= MaxFiles ==>
        selected == old(selected) + ValidFiles(files)
        && status == (if LastRejection(files).Some? then LastRejection(files) else old(status))
    {
      var valid: seq<FileInfo> := [];
      var i := 0;
      while i < |files|
        invariant 0 <= i <= |files|
        invariant selected == old(selected)
        invariant valid == ValidFiles(files[..i])
        invariant status == (if LastRejection(files[..i]).Some? then LastRejection(files[..i]) else old(status))
      {
        var f := files[i];
        var verdict := Screen(f);
        if verdict != Admissible {
          status := Some(RejectionStatus(f, verdict));
        } else {
          valid := valid + [f];
        }
        assert files[..i + 1][..i] == files[..i];
        i := i + 1;
      }
      assert files[..i] == files;
      if |selected| + |valid| > MaxFiles {
        status := Some(CapacityStatus());
        return;
      }
      selected := selected + valid;
    }

    /** The remove control of a preview tile: `splice(index, 1)` on the selection. */
    method RemovePhoto(index: int)
      requires Valid()
      modifies this`selected
      ensures Valid()
      ensures selected == RemoveAt(old(selected), index)
    {
      var k := SpliceStart(|selected|, index);
      if k < |selected| {
        selected := selected[..k] + selected[k + 1..];
      }
    }

    /**
     * The submit handler. `response` stands for what the endpoint would
     * answer. `shown` lists the statuses set, in order; `payload` holds the
     * photo entries of the request, when one is made.
     */
    method Submit(fields: Fields, response: Response) returns (shown: seq<Status>, payload: Option<seq<Entry>>)
      requires Valid()
      modifies this`selected, this`status, this`sendDisabled, this`sendLabel
      ensures Valid()
      ensures Decide(fields).Invalid? ==>
        && shown == [OutcomeStatus(Decide(fields)).value] && status == Some(shown[0])
        && payload == None && selected == old(selected)
        && sendDisabled == old(sendDisabled) && sendLabel == old(sendLabel)
      ensures Decide(fields) == SilentAbort ==>
        && shown == [] && payload == None && unchanged(this)
      ensures Decide(fields) == Send ==>
        && shown == [Status(SendingText, OkTone), ResponseStatus(response)]
        && status == Some(ResponseStatus(response))
        && payload == Some(PhotoEntries(old(selected)))
        && selected == (if response.Accepted? then [] else old(selected))
        && !sendDisabled && sendLabel == SendLabel
    {
      var outcome := Decide(fields);
      if outcome.Invalid? {
        var st := OutcomeStatus(outcome).value;
        status := Some(st);
        return [st], None;
      }
      if outcome == SilentAbort {
        return [], None;
      }
      sendDisabled := true;
      sendLabel := SendingLabel;
      var sending := Status(SendingText, OkTone);
      status := Some(sending);
      var entries := PhotoEntries(selected);
      var settled := ResponseStatus(response);
      status := Some(settled);
      if response.Accepted? {
        selected := [];
      }
      sendDisabled := false;
      sendLabel := SendLabel;
      shown := [sending, settled];
      payload := Some(entries);
    }
  }

  /** What a user can do to the form: pick or drop a batch, remove a tile, or submit. */
  datatype FormEvent =
    | PickFiles(files: seq<FileInfo>)
    | RemoveTile(index: int)
    | SubmitForm(fields: Fields, response: Response)

  /** Whatever a user does, in whatever order, the selection keeps its bound from a fresh form on. */
  method SelectionStaysBounded(events: seq<FormEvent>) returns (count: nat)
    ensures count <= MaxFiles
  {
    var form := new ContactForm();
    for i := 0 to |events|
      invariant form.Valid()
    {
      match events[i]
      case PickFiles(files) =>
        form.HandleFiles(files);
      case RemoveTile(index) =>
        form.RemovePhoto(index);
      case SubmitForm(fields, response) =>
        var _, _ := form.Submit(fields, response);
    }
    count := |form.selected|;
  }
}
