/** The client component (`ParameterManager`): the fetched list, the set of
    selected ids, the text of the input box and the error banner, and the
    transitions the buttons and checkboxes trigger. The server's reply to each
    request is a parameter of the transition, so success and failure are both
    covered. */
module Client {
  import opened Text
  import opened Store

  datatype Option<T> = None | Some(value: T)

  /** How a request ended, as the promise callbacks see it. */
  datatype Reply<T> = Success(data: T) | Failure

  const EmptyNameError := "Parameter name cannot be empty."
  const DuplicateError := "Parameter already exists!"
  const AddError := "Error adding parameter. Please try again."
  const NothingSelectedError := "No parameters selected for deletion."
  const DeleteError := "Error deleting parameters. Please try again."

  /** `parameters.some(p => p.name.toLowerCase() === input.toLowerCase())` */
  function IsDuplicate(ps: seq<Parameter>, input: string): bool {
    if ps == [] then false
    else SameIgnoringCase(ps[0].name, input) || IsDuplicate(ps[1..], input)
  }

  /** The duplicate test holds exactly when some listed name equals the input
      ignoring case. */
  lemma {:induction false} IsDuplicateIff(ps: seq<Parameter>, input: string)
    ensures IsDuplicate(ps, input) <==> exists i :: 0 <= i < |ps| && SameIgnoringCase(ps[i].name, input)
    decreases |ps|
  {
    if ps != [] {
      IsDuplicateIff(ps[1..], input);
      if IsDuplicate(ps[1..], input) {
        var i :| 0 <= i < |ps[1..]| && SameIgnoringCase(ps[1..][i].name, input);
        assert ps[i + 1] == ps[1..][i];
      }
      if exists i :: 0 <= i < |ps| && SameIgnoringCase(ps[i].name, input) {
        var i :| 0 <= i < |ps| && SameIgnoringCase(ps[i].name, input);
        if i > 0 {
          assert ps[1..][i - 1] == ps[i];
        }
      }
    }
  }

  /** `parameters.filter(p => !ids.includes(p._id))`: the entries whose id is not
      selected. */
  function WithoutSelected(ps: seq<Parameter>, ids: set<Id>): (r: seq<Parameter>)
    ensures |r| <= |ps|
    ensures forall p :: p in r <==> p in ps && p.id !in ids
  {
    if ps == [] then []
    else (if ps[0].id in ids then [] else [ps[0]]) + WithoutSelected(ps[1..], ids)
  }

  /** The filter keeps the original order: filtering a concatenation is
      concatenating the filtered parts. */
  lemma {:induction false} WithoutSelectedAppend(a: seq<Parameter>, b: seq<Parameter>, ids: set<Id>)
    ensures WithoutSelected(a + b, ids) == WithoutSelected(a, ids) + WithoutSelected(b, ids)
    decreases |a|
  {
    if a == [] {
      assert a + b == b;
    } else {
      assert (a + b)[0] == a[0] && (a + b)[1..] == a[1..] + b;
      WithoutSelectedAppend(a[1..], b, ids);
    }
  }

  /** The copy-and-flip of `handleCheckboxChange`: only `id`'s membership changes. */
  function Toggled(sel: set<Id>, id: Id): (r: set<Id>)
    ensures id in r <==> id !in sel
    ensures forall x :: x != id ==> (x in r <==> x in sel)
  {
    if id in sel then sel - {id} else sel + {id}
  }

  /** Toggling the same checkbox twice restores the selection. */
  lemma ToggleTwiceRestores(sel: set<Id>, id: Id)
    ensures Toggled(Toggled(sel, id), id) == sel
  {
  }

  class ParameterManager {
    var newParameter: string
    var parameters: seq<Parameter>
    var selected: set<Id>
    var errorMessage: string

    constructor ()
      ensures newParameter == "" && parameters == [] && selected == {} && errorMessage == ""
    {
      newParameter, parameters, selected, errorMessage := "", [], {}, "";
    }

    /** `fetchParameters`, run on mount: a successful reply replaces the list; a
        failure is only logged. */
    method FetchParameters(reply: Reply<seq<Parameter>>)
      modifies this
      ensures parameters == if reply.Success? then reply.data else old(parameters)
      ensures newParameter == old(newParameter) && selected == old(selected)
      ensures errorMessage == old(errorMessage)
    {
      if reply.Success? {
        parameters := reply.data;
      }
    }

    /** The input box's `onChange`. */
    method HandleInputChange(text: string)
      modifies this
      ensures newParameter == text
      ensures parameters == old(parameters) && selected == old(selected)
      ensures errorMessage == old(errorMessage)
    {
      newParameter := text;
    }

    /** `handleAddParameter`. A blank input or one equal, ignoring case, to a listed
        name sets an error and sends nothing; otherwise the untrimmed input is
        posted, and `reply` decides what happens to the list. */
    method HandleAddParameter(reply: Reply<Parameter>) returns (request: Option<string>)
      modifies this
      ensures selected == old(selected)
      ensures AllWhitespace(old(newParameter)) ==>
        && request == None && errorMessage == EmptyNameError
        && parameters == old(parameters) && newParameter == old(newParameter)
      ensures !AllWhitespace(old(newParameter)) && IsDuplicate(old(parameters), old(newParameter)) ==>
        && request == None && errorMessage == DuplicateError
        && parameters == old(parameters) && newParameter == old(newParameter)
      ensures !AllWhitespace(old(newParameter)) && !IsDuplicate(old(parameters), old(newParameter)) ==>
        && request == Some(old(newParameter))
        && (reply.Success? ==>
              parameters == old(parameters) + [reply.data] && newParameter == "" && errorMessage == "")
        && (reply.Failure? ==>
              parameters == old(parameters) && newParameter == old(newParameter) && errorMessage == AddError)
    {
      var input := newParameter;
      var blank := IsBlank(input);
      if blank {
        errorMessage := EmptyNameError;
        return None;
      }
      var duplicate := IsDuplicate(parameters, input);
      if duplicate {
        errorMessage := DuplicateError;
        return None;
      }
      request := Some(input);
      match reply
      case Success(p) =>
        parameters, newParameter, errorMessage := parameters + [p], "", "";
      case Failure =>
        errorMessage := AddError;
    }

    /** `handleCheckboxChange`: flips `id` in the selection. */
    method HandleCheckboxChange(id: Id)
      modifies this
      ensures selected == Toggled(old(selected), id)
      ensures parameters == old(parameters) && newParameter == old(newParameter)
      ensures errorMessage == old(errorMessage)
    {
      var updated := selected;
      if id in updated {
        updated := updated - {id};
      } else {
        updated := updated + {id};
      }
      selected := updated;
    }

    /** `handleDeleteSelectedParameters`. An empty selection sets an error and sends
        nothing; otherwise the selected ids are sent, and on success the list keeps
        exactly the unselected entries and the selection is cleared. */
    method HandleDeleteSelectedParameters(succeeded: bool) returns (request: Option<set<Id>>)
      modifies this
      ensures newParameter == old(newParameter)
      ensures old(selected) == {} ==>
        && request == None && errorMessage == NothingSelectedError
        && parameters == old(parameters) && selected == old(selected)
      ensures old(selected) != {} ==>
        && request == Some(old(selected))
        && (succeeded ==>
              && parameters == WithoutSelected(old(parameters), old(selected))
              && selected == {} && errorMessage == old(errorMessage))
        && (!succeeded ==>
              parameters == old(parameters) && selected == old(selected) && errorMessage == DeleteError)
    {
      var idsToDelete := selected;
      if idsToDelete != {} {
        request := Some(idsToDelete);
        if succeeded {
          parameters := WithoutSelected(parameters, idsToDelete);
          selected := {};
        } else {
          errorMessage := DeleteError;
        }
      } else {
        errorMessage := NothingSelectedError;
        request := None;
      }
    }
  }

  // ---------------------------------------------------------------------------
  // The client against the server

  /** While the client's list is a listing of the store, its duplicate check agrees
      with the server's: a name the client lets through is not refused as a
      duplicate, and conversely. */
  lemma ClientDuplicateCheckMatchesServer(ps: seq<Parameter>, docs: Docs, input: string)
    requires IsListing(ps, docs)
    ensures IsDuplicate(ps, input) <==> NameTakenIgnoringCase(docs, input)
  {
    IsDuplicateIff(ps, input);
    if NameTakenIgnoringCase(docs, input) {
      var id :| id in docs && SameIgnoringCase(docs[id].name, input);
      assert id in Ids(ps);
      var p :| p in ps && p.id == id;
      var i :| 0 <= i < |ps| && ps[i] == p;
      assert SameIgnoringCase(ps[i].name, input);
    }
  }

  /** After a delete that succeeds on both sides, a client list that was a listing
      of the store is a listing of the store afterwards. */
  lemma ClientDeleteMatchesServer(ps: seq<Parameter>, docs: Docs, ids: set<Id>)
    requires IsListing(ps, docs)
    ensures IsListing(WithoutSelected(ps, ids), docs - ids)
  {
    var r := WithoutSelected(ps, ids);
    WithoutSelectedDistinct(ps, ids);
    forall i | 0 <= i < |r| ensures r[i].id in docs - ids && (docs - ids)[r[i].id] == r[i] {
      assert r[i] in r;
      var k :| 0 <= k < |ps| && ps[k] == r[i];
    }
    assert Ids(r) == (docs - ids).Keys by {
      forall id | id in (docs - ids).Keys ensures id in Ids(r) {
        var p :| p in ps && p.id == id;
      }
    }
  }

  lemma {:induction false} WithoutSelectedDistinct(ps: seq<Parameter>, ids: set<Id>)
    requires DistinctIds(ps)
    ensures DistinctIds(WithoutSelected(ps, ids))
    decreases |ps|
  {
    if ps != [] {
      var rest := WithoutSelected(ps[1..], ids);
      assert DistinctIds(ps[1..]) by {
        forall i, j | 0 <= i < j < |ps[1..]| ensures ps[1..][i].id != ps[1..][j].id {
          assert ps[1..][i] == ps[i + 1] && ps[1..][j] == ps[j + 1];
        }
      }
      WithoutSelectedDistinct(ps[1..], ids);
      forall p | p in rest ensures p.id != ps[0].id {
        var k :| 0 <= k < |ps[1..]| && ps[1..][k] == p;
        assert ps[k + 1] == p;
      }
    }
  }
}
