/** The `leads` table. */
module Leads {
  import opened Wrappers

  /** A row of `leads`. */
  datatype Lead = Lead(id: string, email: Option<string>, name: Option<string>, company: Option<string>)

  /** `.eq("id", id).single()` on `leads`: the first row with that id, if any. */
  function FindLead(leads: seq<Lead>, id: string): (r: Option<Lead>)
    ensures r.Some? ==> r.value in leads && r.value.id == id
    ensures r.None? ==> forall i :: 0 <= i < |leads| ==> leads[i].id != id
  {
    if |leads| == 0 then None
    else if leads[0].id == id then Some(leads[0])
    else FindLead(leads[1..], id)
  }
}
