/** The request body every player receives in one run:
    `{"profile": {"applications": [{"applicationId": k, "version": v}, ...]}}`. */
module Payload {
  import opened Wrappers
  import opened OrderedDict
  import opened InputReader

  /** One `{"applicationId": ..., "version": ...}` record. */
  datatype Application = Application(applicationId: string, version: string)

  datatype Profile = Profile(applications: seq<Application>)

  datatype Body = Body(profile: Profile)

  /** The body built from the version map: one record per entry, in the map's order. */
  function BuildBody(versions: VersionMap): (b: Body)
    ensures |b.profile.applications| == |versions|
    ensures forall i :: 0 <= i < |versions| ==>
      b.profile.applications[i] == Application(versions[i].0, versions[i].1)
  {
    Body(Profile(Applications(versions)))
  }

  /** `applicationList`: the loop appending one record per `versionDict.items()` entry. */
  function Applications(versions: VersionMap): (apps: seq<Application>)
    ensures |apps| == |versions|
    ensures forall i :: 0 <= i < |versions| ==> apps[i] == Application(versions[i].0, versions[i].1)
  {
    if |versions| == 0 then []
    else [Application(versions[0].0, versions[0].1)] + Applications(versions[1..])
  }

  /** Reading the version map back out of a body. */
  function VersionsOf(b: Body): (versions: VersionMap)
  {
    seq(|b.profile.applications|, i requires 0 <= i < |b.profile.applications| =>
      (b.profile.applications[i].applicationId, b.profile.applications[i].version))
  }

  /** The body carries exactly the version map: reading it back gives the map
      unchanged, entry for entry and in order. */
  lemma {:induction false} BodyRoundTrip(versions: VersionMap)
    ensures VersionsOf(BuildBody(versions)) == versions
    ensures |BuildBody(versions).profile.applications| == |versions|
  {
    if |versions| > 0 {
      BodyRoundTrip(versions[1..]);
      var rest := Applications(versions[1..]);
      assert VersionsOf(Body(Profile(rest))) == versions[1..];
      assert forall i :: 1 <= i < |versions| ==> Applications(versions)[i] == rest[i - 1];
    }
  }

  /** Every body is the one built from its own version map. */
  lemma {:induction false} BodyFromVersions(b: Body)
    ensures BuildBody(VersionsOf(b)) == b
    decreases |b.profile.applications|
  {
    var apps := b.profile.applications;
    if |apps| > 0 {
      var tail := Body(Profile(apps[1..]));
      BodyFromVersions(tail);
      assert VersionsOf(b)[1..] == VersionsOf(tail);
      assert Applications(VersionsOf(b)) == [apps[0]] + apps[1..];
      assert apps == [apps[0]] + apps[1..];
    }
  }

  /** Distinct version maps give distinct bodies, and an empty map gives an
      empty `applications` list. */
  lemma BuildBodyInjective(v1: VersionMap, v2: VersionMap)
    ensures BuildBody(v1) == BuildBody(v2) <==> v1 == v2
    ensures BuildBody(v1).profile.applications == [] <==> v1 == []
  {
    BodyRoundTrip(v1);
    BodyRoundTrip(v2);
  }

  /** For a map with unique keys, the record for application `k` carries the
      version the map gives `k`, and no application id repeats. */
  lemma {:induction false} BodyLookup(versions: VersionMap, k: string)
    requires UniqueKeys(versions)
    ensures var apps := BuildBody(versions).profile.applications;
      && (forall i, j :: 0 <= i < j < |apps| ==> apps[i].applicationId != apps[j].applicationId)
      && (Get(versions, k).Some? <==> exists i :: 0 <= i < |apps| && apps[i].applicationId == k)
      && (forall i :: 0 <= i < |apps| && apps[i].applicationId == k ==> Some(apps[i].version) == Get(versions, k))
  {
    BodyRoundTrip(versions);
    var apps := BuildBody(versions).profile.applications;
    assert forall i :: 0 <= i < |apps| ==> versions[i] == (apps[i].applicationId, apps[i].version);
    forall i | 0 <= i < |apps| && apps[i].applicationId == k
      ensures Some(apps[i].version) == Get(versions, k)
    {
      GetStored(versions, i);
    }
    if Get(versions, k).Some? {
      GetFound(versions, k);
      var i :| 0 <= i < |versions| && versions[i] == (k, Get(versions, k).value);
      assert apps[i].applicationId == k;
    }
  }
}
