/** The operator's own view of one application registered in Prowlarr. */
module ProwlarrTypes {
  import opened Common
  import opened Json

  datatype ProwlarrAppField = ProwlarrAppField(name: string, value: Value)

  datatype ProwlarrApp = ProwlarrApp(
    id: int,
    name: string,
    syncLevel: string,
    implementation: string,
    configContract: string,
    fields: seq<ProwlarrAppField>,
    tags: seq<int>)
  {
    /** The text of the first field called "baseUrl"; a first such field that is not text hides
        any later one. */
    function BaseUrl(): Option<string> {
      FirstBaseUrl(fields)
    }
  }

  function FirstBaseUrl(fields: seq<ProwlarrAppField>): Option<string> {
    if fields == [] then None
    else if fields[0].name == "baseUrl" then
      if fields[0].value.Str? then Some(fields[0].value.s) else None
    else FirstBaseUrl(fields[1..])
  }

  /** The first field called "baseUrl", if there is one, decides: its text is the URL. */
  lemma {:induction false} BaseUrlOfFirst(fields: seq<ProwlarrAppField>, k: nat)
    requires k <= |fields| && forall i :: 0 <= i < k ==> fields[i].name != "baseUrl"
    ensures k == |fields| ==> FirstBaseUrl(fields) == None
    ensures k < |fields| && fields[k].name == "baseUrl" ==>
              FirstBaseUrl(fields) == match fields[k].value case Str(s) => Some(s) case _ => None
  {
    if k > 0 {
      BaseUrlOfFirst(fields[1..], k - 1);
    }
  }
}
