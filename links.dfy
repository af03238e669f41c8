/** What the HTML scraper and the browser fallback share: the resolved-URL
    record and the two tests a candidate link is put to. */
module Links {
  import opened Text

  /** `ResolvedUrl`: the URL to download and the URL it came from. */
  datatype ResolvedUrl = ResolvedUrl(url: string, original: string)

  const ArchiveExtensions: seq<string> := [".zip", ".rar", ".7z", ".lzh"]

  const HostingDomains: seq<string> :=
    ["drive.google.com", "dropbox.com", "www.dropbox.com", "onedrive.live.com", "1drv.ms"]

  const ManbowHost: string := "manbow.nothing.sh"

  /** The lower-cased link ends in one of the archive extensions. */
  predicate IsArchiveLink(link: string) {
    exists i :: 0 <= i < |ArchiveExtensions| && EndsWith(Lower(link), ArchiveExtensions[i])
  }

  /** The host contains one of the hosting domains (as a substring, so
      `x.dropbox.com.example` counts too). */
  predicate IsHostingHost(host: string) {
    exists i :: 0 <= i < |HostingDomains| && Contains(host, HostingDomains[i])
  }

  lemma {:induction false} NoFirstCharNoContains(s: string, pattern: string)
    requires pattern != []
    requires forall j :: 0 <= j && j + |pattern| <= |s| ==> s[j] != pattern[0]
    ensures !Contains(s, pattern)
  {
    forall j | 0 <= j <= |s| ensures !OccursAt(s, pattern, j) {
      if j + |pattern| <= |s| {
        assert s[j..j + |pattern|][0] == s[j];
      }
    }
  }

  /** No hosting domain occurs in the manbow host, so resolving a hosting
      link never scrapes a manbow page again. */
  lemma ManbowIsNotHosting()
    ensures !IsHostingHost(ManbowHost)
  {
    var s := ManbowHost;
    assert |s| == 17;
    forall i | 0 <= i < |HostingDomains| ensures !Contains(s, HostingDomains[i]) {
      var d := HostingDomains[i];
      if i == 0 || i == 1 || i == 4 {
        assert forall j :: 0 <= j < |s| ==> s[j] != 'd' && s[j] != '1';
        NoFirstCharNoContains(s, d);
      } else if i == 2 {
        assert forall j :: 0 <= j < 3 ==> s[j] != 'w';
        NoFirstCharNoContains(s, d);
      } else {
        assert |d| == 17 && s[0] != d[0];
        NoFirstCharNoContains(s, d);
      }
    }
  }
}
