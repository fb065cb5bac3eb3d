/** utils.py's `GameOptions` enumeration: the games the trading helpers know,
    each with its Steam app id and inventory context id, and the lookup of a
    member by app id. */
module GameOptions {
  import opened Wrappers

  /** The members, in declaration order. */
  datatype GameOption = DOTA2 | CS | TF2 | GIFTS | CARDS | PAYDAY2 | H1Z1 | PUBG
  {
    /** The first element of the member's value, its Steam app id. */
    function AppId(): string
    {
      match this
      case DOTA2 => "570"
      case CS => "730"
      case TF2 => "440"
      case GIFTS => "753"
      case CARDS => "753"
      case PAYDAY2 => "218620"
      case H1Z1 => "433850"
      case PUBG => "578080"
    }

    /** The second element of the member's value, its inventory context id. */
    function ContextId(): string
    {
      match this
      case DOTA2 => "2"
      case CS => "2"
      case TF2 => "2"
      case GIFTS => "1"
      case CARDS => "6"
      case PAYDAY2 => "2"
      case H1Z1 => "1"
      case PUBG => "2"
    }

    /** The member's position when the enumeration is iterated. */
    function Ordinal(): nat
    {
      match this
      case DOTA2 => 0
      case CS => 1
      case TF2 => 2
      case GIFTS => 3
      case CARDS => 4
      case PAYDAY2 => 5
      case H1Z1 => 6
      case PUBG => 7
    }
  }

  /** Iterating the enumeration class visits the members in declaration order. */
  const Members: seq<GameOption> := [DOTA2, CS, TF2, GIFTS, CARDS, PAYDAY2, H1Z1, PUBG]

  lemma MembersInOrder(g: GameOption)
    ensures g.Ordinal() < |Members| && Members[g.Ordinal()] == g
  {
  }

  /** The first member at or after position `i` whose app id is `appid`. */
  function FirstFrom(appid: string, i: nat): (r: Option<GameOption>)
    requires i <= |Members|
    ensures r.Some? ==> i <= r.value.Ordinal() && r.value.AppId() == appid
    ensures r.Some? ==> forall j :: i <= j < r.value.Ordinal() ==> Members[j].AppId() != appid
    ensures r.None? <==> forall j :: i <= j < |Members| ==> Members[j].AppId() != appid
    decreases |Members| - i
  {
    if i == |Members| then None
    else if Members[i].AppId() == appid then
      MembersInOrder(Members[i]);
      Some(Members[i])
    else FirstFrom(appid, i + 1)
  }

  /** What `GameOptions.appid_to_option(appid)` returns or raises. */
  function OptionFor(appid: string): (r: Result<GameOption>)
  {
    match FirstFrom(appid, 0)
    case Some(g) => Ok(g)
    case None => Err(UnsupportedAppId(appid))
  }

  /** `GameOptions.appid_to_option`: the loop over the members, returning the
      first one whose app id equals the argument. */
  method AppIdToOption(appid: string) returns (r: Result<GameOption>)
    ensures r == OptionFor(appid)
  {
    var i := 0;
    while i < |Members|
      invariant 0 <= i <= |Members|
      invariant FirstFrom(appid, 0) == FirstFrom(appid, i)
    {
      if appid == Members[i].AppId() {
        return Ok(Members[i]);
      }
      i := i + 1;
    }
    return Err(UnsupportedAppId(appid));
  }

  /** The lookup returns a member whose app id is the argument and which no
      earlier member shares; it raises exactly when no member has that app id. */
  lemma OptionForIsFirstMatch(appid: string)
    ensures OptionFor(appid).Ok? ==> OptionFor(appid).value.AppId() == appid
    ensures OptionFor(appid).Ok? ==>
      forall g: GameOption :: g.Ordinal() < OptionFor(appid).value.Ordinal() ==> g.AppId() != appid
    ensures OptionFor(appid).Err? <==> forall g: GameOption :: g.AppId() != appid
    ensures OptionFor(appid).Err? ==> OptionFor(appid).error == UnsupportedAppId(appid)
  {
    forall g: GameOption
      ensures g.Ordinal() < |Members| && Members[g.Ordinal()] == g
    {
      MembersInOrder(g);
    }
  }

  /** GIFTS and CARDS share app id 753; the lookup always yields GIFTS. */
  lemma SharedAppIdYieldsFirst()
    ensures OptionFor("753") == Ok(GIFTS)
    ensures forall appid :: OptionFor(appid) != Ok(CARDS)
  {
    forall appid
      ensures OptionFor(appid) != Ok(CARDS)
    {
      OptionForIsFirstMatch(appid);
    }
  }
}
