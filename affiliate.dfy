/** Affiliate classification of a link's target URL. The per-link page
    (docs/by-url.js) recognises eight query-string markers; the dashboard
    (docs/analytics.js) tests a shorter list of five. */
module Affiliate {
  import opened Text

  /** The markers of `isAffiliate` on the per-link page. */
  const MARKERS: seq<string> :=
    ["tag=", "irclickid=", "irgwc=", "partner=", "affpt=", "utm_channel=affiliates", "utm_source=", "iradid="]

  /** The markers the dashboard tests. */
  const DASHBOARD_MARKERS: seq<string> := ["tag=", "irclickid=", "utm_source=", "affpt=", "partner="]

  /** `markers.some(m => url.includes(m))`. */
  function AnyMarker(url: string, markers: seq<string>): bool
  {
    markers != [] && (Contains(url, markers[0]) || AnyMarker(url, markers[1..]))
  }

  lemma {:induction false} AnyMarkerExists(url: string, markers: seq<string>)
    ensures AnyMarker(url, markers) <==> exists i :: 0 <= i < |markers| && Contains(url, markers[i])
  {
    if markers != [] {
      AnyMarkerExists(url, markers[1..]);
      if exists i :: 0 <= i < |markers| && Contains(url, markers[i]) {
        var i :| 0 <= i < |markers| && Contains(url, markers[i]);
        if i > 0 {
          assert markers[1..][i - 1] == markers[i];
        }
      }
      if exists i :: 0 <= i < |markers[1..]| && Contains(url, markers[1..][i]) {
        var i :| 0 <= i < |markers[1..]| && Contains(url, markers[1..][i]);
        assert markers[i + 1] == markers[1..][i];
      }
    }
  }

  /** `isAffiliate(url)`: false for a missing or empty URL, otherwise true
      exactly when one of the eight markers occurs in it. */
  function IsAffiliate(url: string): (r: bool)
    ensures r <==> url != "" && exists i :: 0 <= i < |MARKERS| && Contains(url, MARKERS[i])
  {
    AnyMarkerExists(url, MARKERS);
    if url == "" then false else AnyMarker(url, MARKERS)
  }

  /** The dashboard's test on `original_url || ''`: one of the five markers occurs. */
  function DashboardAffiliate(url: string): (r: bool)
    ensures r <==> exists i :: 0 <= i < |DASHBOARD_MARKERS| && Contains(url, DASHBOARD_MARKERS[i])
  {
    AnyMarkerExists(url, DASHBOARD_MARKERS);
    AnyMarker(url, DASHBOARD_MARKERS)
  }

  /** A string that contains a non-empty part is not empty. */
  lemma ContainsNonEmpty(s: string, part: string)
    requires part != [] && Contains(s, part)
    ensures s != []
  {
  }

  /** Every URL the dashboard counts as affiliate, the per-link page also
      labels affiliate. */
  lemma DashboardImpliesAffiliate(url: string)
    ensures DashboardAffiliate(url) ==> IsAffiliate(url)
  {
    if DashboardAffiliate(url) {
      var i :| 0 <= i < |DASHBOARD_MARKERS| && Contains(url, DASHBOARD_MARKERS[i]);
      var j := [0, 1, 6, 4, 3][i];
      assert MARKERS[j] == DASHBOARD_MARKERS[i];
      ContainsNonEmpty(url, MARKERS[j]);
    }
  }

  /** A part with a character the string lacks does not occur in it. */
  lemma {:induction false} MissingChar(s: string, part: string, k: nat)
    requires k < |part| && part[k] !in s
    ensures !Contains(s, part)
  {
    if s != [] {
      MissingChar(s[1..], part, k);
    }
  }

  /** The converse fails: an Impact `irgwc=` link is affiliate on the per-link
      page but regular on the dashboard. */
  lemma DashboardMissesIrgwc()
    ensures IsAffiliate("irgwc=1") && !DashboardAffiliate("irgwc=1")
  {
    var url := "irgwc=1";
    assert MARKERS[2] <= url;
    assert Contains(url, MARKERS[2]);
    forall i | 0 <= i < |DASHBOARD_MARKERS| ensures !Contains(url, DASHBOARD_MARKERS[i]) {
      var m := DASHBOARD_MARKERS[i];
      if i == 0 {
        assert m == "tag=" && m[0] == 't';
        MissingChar(url, m, 0);
      } else if i == 1 {
        assert m == "irclickid=" && m[3] == 'l';
        MissingChar(url, m, 3);
      } else if i == 2 {
        assert m == "utm_source=" && m[0] == 'u';
        MissingChar(url, m, 0);
      } else if i == 3 {
        assert m == "affpt=" && m[0] == 'a';
        MissingChar(url, m, 0);
      } else {
        assert m == "partner=" && m[0] == 'p';
        MissingChar(url, m, 0);
      }
    }
  }
}
