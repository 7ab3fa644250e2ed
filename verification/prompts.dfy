/**
  The decision logic of `query_yes_no` in updateHostsFile.py. The question
  is asked again until a reply settles it; here the replies the user would
  type are given in advance, already lower-cased.
*/
module Prompts {
  import opened Outcomes

  /** Why `query_yes_no` returns no answer. */
  datatype QueryError =
    | InvalidDefault   // the `ValueError` raised for a default outside None, "yes" and "no"
    | NoMoreInput      // the replies ran out before one settled the question

  /** The defaults the prompt table knows: none, `"yes"` or `"no"`. */
  predicate ValidDefault(default: Option<string>) {
    default == None || default == Some("yes") || default == Some("no")
  }

  /** The replies the `valid` table accepts as yes. */
  predicate MeansYes(reply: string) { reply == "y" || reply == "ye" || reply == "yes" }

  /** The replies the `valid` table accepts as no. */
  predicate MeansNo(reply: string) { reply == "n" || reply == "no" }

  /** A reply that ends the loop: empty with a default set, or one the table accepts. */
  predicate Settles(reply: string, default: Option<string>) {
    (default.Some? && reply == "") || MeansYes(reply) || MeansNo(reply)
  }

  /** The answer a settling reply gives. */
  predicate SaysYes(reply: string, default: Option<string>) {
    if reply == "" then default == Some("yes") else MeansYes(reply)
  }

  /** The loop from the first remaining reply on. */
  function Ask(replies: seq<string>, default: Option<string>): (r: Result<bool, QueryError>)
    requires ValidDefault(default)
    ensures r.Err? ==> r.error == NoMoreInput
    decreases |replies|
  {
    if |replies| == 0 then Err(NoMoreInput)
    else
      var choice := replies[0];
      if default.Some? && choice == "" then Ok(default.value == "yes")
      else if MeansYes(choice) then Ok(true)
      else if MeansNo(choice) then Ok(false)
      else Ask(replies[1..], default)
  }

  /** `query_yes_no(question, default="yes")`. */
  function QueryYesNo(replies: seq<string>, default: Option<string> := Some("yes")): (r: Result<bool, QueryError>)
    ensures r == Err(InvalidDefault) <==> !ValidDefault(default)
  {
    if !ValidDefault(default) then Err(InvalidDefault) else Ask(replies, default)
  }

  /** Reply `i` is the first one that settles the question. */
  predicate FirstSettling(replies: seq<string>, default: Option<string>, i: int) {
    && 0 <= i < |replies|
    && Settles(replies[i], default)
    && forall j :: 0 <= j < i ==> !Settles(replies[j], default)
  }

  /**
    With a valid default the answer is the one the first settling reply
    gives, and the replies running out is reported only when none settles.
  */
  lemma {:induction false} AskAnswersFirstSettling(replies: seq<string>, default: Option<string>)
    requires ValidDefault(default)
    ensures Ask(replies, default).Err? <==> forall i :: 0 <= i < |replies| ==> !Settles(replies[i], default)
    ensures forall i :: FirstSettling(replies, default, i) ==> Ask(replies, default) == Ok(SaysYes(replies[i], default))
    decreases |replies|
  {
    if |replies| > 0 && !Settles(replies[0], default) {
      AskAnswersFirstSettling(replies[1..], default);
      forall i | FirstSettling(replies, default, i)
        ensures FirstSettling(replies[1..], default, i - 1)
      {
        assert i != 0;
        forall j | 0 <= j < i - 1 ensures !Settles(replies[1..][j], default) {
          assert replies[1..][j] == replies[j + 1];
        }
      }
      assert forall i :: 1 <= i < |replies| ==> replies[i] == replies[1..][i - 1];
    }
  }

  /** The query's result, in full. */
  lemma QueryYesNoResult(replies: seq<string>, default: Option<string>, i: int)
    requires ValidDefault(default) && FirstSettling(replies, default, i)
    ensures QueryYesNo(replies, default) == Ok(SaysYes(replies[i], default))
  {
    AskAnswersFirstSettling(replies, default);
  }

  /** Without a default an empty reply is refused like any unknown one. */
  lemma EmptyReplyNeedsDefault(rest: seq<string>)
    ensures QueryYesNo([""] + rest, None) == QueryYesNo(rest, None)
  {
    assert ([""] + rest)[1..] == rest;
  }

  /** Called without a default, the question counts an empty reply as yes. */
  lemma EmptyReplyMeansYes(rest: seq<string>)
    ensures QueryYesNo([""] + rest) == Ok(true)
  {
  }
}
