/** The records the recommender works on, and the two first-match lookups:
    a phone by its model name and a user by its identifier. */
module Catalog {
  import opened Wrappers

  /** A phone of the catalogue. Storage, RAM and camera may be absent from a
      record; price and screen size are always present, and so is the operating
      system, which is an arbitrary string. */
  datatype Phone = Phone(
    model: string,
    brand: string,
    price: real,
    screenSize: real,
    storage: Option<real>,
    ram: Option<real>,
    camera: Option<real>,
    os: string)

  /** A user: identifier, income, age and the model names bought so far, in
      purchase order (possibly naming models the catalogue does not know). */
  datatype User = User(id: int, income: real, age: real, history: seq<string>)

  /** The first phone of `phones` whose model is exactly `model`, if any. */
  function FirstByModel(model: string, phones: seq<Phone>): (r: Option<Phone>)
    ensures r.None? <==> forall i :: 0 <= i < |phones| ==> phones[i].model != model
    ensures r.Some? ==>
      exists k :: 0 <= k < |phones| && phones[k] == r.value && r.value.model == model &&
        forall j :: 0 <= j < k ==> phones[j].model != model
  {
    if |phones| == 0 then None
    else if phones[0].model == model then Some(phones[0])
    else
      FirstByModel(model, phones[1..])
  }

  /** The linear scan with early return that looks a phone up by model. */
  method FindByModel(model: string, phones: seq<Phone>) returns (r: Option<Phone>)
    ensures r == FirstByModel(model, phones)
  {
    for i := 0 to |phones|
      invariant FirstByModel(model, phones[i..]) == FirstByModel(model, phones)
    {
      if phones[i].model == model {
        return Some(phones[i]);
      }
      assert phones[i..][1..] == phones[i + 1..];
    }
    return None;
  }

  /** The first user of `users` whose identifier is `id`, if any. */
  function FindUser(users: seq<User>, id: int): (r: Option<User>)
    ensures r.None? <==> forall i :: 0 <= i < |users| ==> users[i].id != id
    ensures r.Some? ==>
      exists k :: 0 <= k < |users| && users[k] == r.value && r.value.id == id &&
        forall j :: 0 <= j < k ==> users[j].id != id
  {
    if |users| == 0 then None
    else if users[0].id == id then Some(users[0])
    else
      FindUser(users[1..], id)
  }
}
