/** The parts of a parsed `URL` object that the rule engine reads or writes. */
module Urls {

  /**
   * A parsed URL. `protocol` keeps its colon ("https:"), `search` is "" or
   * starts with "?", `hash` is "" or starts with "#".
   */
  datatype Url = Url(protocol: string, hostname: string, port: string,
                     pathname: string, search: string, hash: string)

  /** `url.href`, assembled from the parts (credentials are not modelled). */
  function Href(u: Url): string {
    u.protocol + "//" + u.hostname + (if u.port == "" then "" else ":" + u.port)
    + u.pathname + u.search + u.hash
  }

  /** The part of the href before the path. */
  function Origin(u: Url): string {
    u.protocol + "//" + u.hostname + (if u.port == "" then "" else ":" + u.port)
  }

  /**
   * Changing only the path and the search changes the href exactly when the
   * path followed by the search changes.
   */
  lemma HrefOfNewPathAndSearch(u: Url, pathname: string, search: string)
    ensures Href(u.(pathname := pathname, search := search)) == Href(u)
            <==> pathname + search == u.pathname + u.search
  {
    var v := u.(pathname := pathname, search := search);
    var front, before, after := Origin(u), u.pathname + u.search, pathname + search;
    assert Href(u) == front + before + u.hash;
    assert Href(v) == front + after + u.hash;
    if Href(v) == Href(u) {
      assert |after| == |before|;
      assert after == Href(v)[|front|..|front| + |after|];
      assert before == Href(u)[|front|..|front| + |before|];
    }
  }
}
