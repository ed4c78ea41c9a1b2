/** The apps that one namespace sweep hands to the registration passes. */
module Discovery {
  import opened Common

  datatype AppType = Sonarr | Radarr | Lidarr | Seerr | Tautulli

  datatype DiscoveredApp = DiscoveredApp(
    name: string,
    appType: AppType,
    host: string,
    port: int,
    apiKey: string,
    instance: Option<string>)
  {
    function BaseUrl(): (url: string)
      ensures url != ""
    {
      "http://" + host + ":" + Decimal(port)
    }
  }

  ghost predicate DistinctNames(discovered: seq<DiscoveredApp>) {
    forall i, j :: 0 <= i < j < |discovered| ==> discovered[i].name != discovered[j].name
  }

  /** The two kinds of app that Seerr and the companion apps keep apart. */
  datatype Kind = SonarrKind | RadarrKind {
    predicate Covers(a: DiscoveredApp): (covers: bool)
      ensures covers <==> (this, a.appType) in {(SonarrKind, Sonarr), (RadarrKind, Radarr)}
    {
      match this
      case SonarrKind => a.appType.Sonarr?
      case RadarrKind => a.appType.Radarr?
    }
  }

  /** How many discovered apps are of this kind. */
  function OfKind(kind: Kind, discovered: seq<DiscoveredApp>): nat {
    if discovered == [] then 0 else (if kind.Covers(discovered[0]) then 1 else 0) + OfKind(kind, discovered[1..])
  }

  function Decimal(n: int): string
    decreases if n < 0 then 1 else 0, n
  {
    if n < 0 then "-" + Decimal(-n)
    else if n < 10 then [('0' as int + n) as char]
    else Decimal(n / 10) + [('0' as int + n % 10) as char]
  }

  // ---- A base URL names one host and port ----

  predicate IsDigit(c: char) {
    '0' <= c <= '9'
  }

  /** The number a decimal text stands for. */
  function Parse(s: string): int {
    if s == "" then 0
    else if s[0] == '-' then -Parse(s[1..])
    else Parse(s[..|s| - 1]) * 10 + (s[|s| - 1] as int - '0' as int)
  }

  lemma {:induction false} DecimalOfNatural(n: nat)
    ensures Decimal(n) != "" && forall i :: 0 <= i < |Decimal(n)| ==> IsDigit(Decimal(n)[i])
    ensures Parse(Decimal(n)) == n
    decreases n
  {
    if n >= 10 {
      DecimalOfNatural(n / 10);
      var front, digit := Decimal(n / 10), ('0' as int + n % 10) as char;
      assert Decimal(n) == front + [digit];
      assert Decimal(n)[..|Decimal(n)| - 1] == front;
    } else {
      assert Decimal(n)[..0] == "";
    }
  }

  lemma DecimalParses(n: int)
    ensures Parse(Decimal(n)) == n && ':' !in Decimal(n)
  {
    DecimalOfNatural(if n < 0 then -n else n);
    if n < 0 {
      assert Decimal(n)[1..] == Decimal(-n);
    }
  }

  /** The URL is made of the scheme, the host, and the port in decimal. */
  lemma UrlNamesAddress(a: DiscoveredApp) returns (port: string)
    ensures a.BaseUrl() == "http://" + a.host + ":" + port
    ensures Parse(port) == a.port && ':' !in port
  {
    port := Decimal(a.port);
    DecimalParses(a.port);
  }

  predicate LastColonAt(s: string, i: nat) {
    i < |s| && s[i] == ':' && forall j :: i < j < |s| ==> s[j] != ':'
  }

  lemma ColonBefore(front: string, back: string)
    requires ':' !in back
    ensures LastColonAt(front + ":" + back, |front|)
  {
    var s := front + ":" + back;
    forall j | |front| < j < |s| ensures s[j] != ':' { assert s[j] == back[j - |front| - 1]; }
  }

  /** A text is split at its last colon in one way only. */
  lemma LastColonSplits(front: string, back: string, front': string, back': string)
    requires front + ":" + back == front' + ":" + back' && ':' !in back && ':' !in back'
    ensures front == front' && back == back'
  {
    var s := front + ":" + back;
    ColonBefore(front, back);
    ColonBefore(front', back');
    assert |front| == |front'|;
    assert front == s[..|front|] && front' == s[..|front|];
    assert back == s[|front| + 1..] && back' == s[|front| + 1..];
  }

  /** Two apps have the same URL exactly when they have the same host and the same port. */
  lemma SameUrlIffSameAddress(a: DiscoveredApp, b: DiscoveredApp)
    ensures a.BaseUrl() == b.BaseUrl() <==> a.host == b.host && a.port == b.port
  {
    if a.BaseUrl() == b.BaseUrl() {
      var p := UrlNamesAddress(a);
      var q := UrlNamesAddress(b);
      LastColonSplits("http://" + a.host, p, "http://" + b.host, q);
      assert a.host == ("http://" + a.host)[7..] && b.host == ("http://" + b.host)[7..];
    }
  }
}
