// The offline comparison of interrogated GATT profiles: each profile document
// becomes a set of "service:characteristic:properties:value" features, empty
// sets are dropped, profiles are compared pairwise by Jaccard similarity, and
// a list of device addresses can narrow the profiles down. The JSON documents
// arrive already decoded; turning a value's bytes into text is a parameter.

module AnalysisGatt {
  import opened Bytes
  import opened Text
  import opened ProcessInterrogatorFiles

  // ---------------------------------------------------------------------
  // Profile documents

  /** One characteristic object: `uuid` may be missing, `uuid128`,
      `properties` and `value` stand for their defaults when missing. */
  datatype JsonChar = JsonChar(uuid: Option<string>, uuid128: seq<uint8>, properties: nat, value: seq<uint8>)

  /** One service object. */
  datatype JsonService = JsonService(uuid: Option<string>, uuid128: seq<uint8>, characteristics: seq<JsonChar>)

  /** One profile document; `remote_bda` may be missing. */
  datatype JsonProfile = JsonProfile(remoteBda: Option<string>, services: seq<JsonService>)

  /** The text of a bytes-to-text decoding of a value. */
  type Decoder = seq<uint8> -> string

  /** `x.get("uuid") or bytes_to_uuid(x.get("uuid128", []))`. */
  function UuidText(uuid: Option<string>, uuid128: seq<uint8>): string
  {
    if uuid.Some? && uuid.value != "" then uuid.value else BytesToUuid(uuid128)
  }

  function ServiceUuid(s: JsonService): string
  {
    UuidText(s.uuid, s.uuid128)
  }

  /** One feature: `f"{service_uuid}:{char_uuid}:{props}:{value}"`. */
  function Feature(svcUuid: string, c: JsonChar, decode: Decoder): string
  {
    svcUuid + ":" + UuidText(c.uuid, c.uuid128) + ":" + PropertiesText(c.properties) + ":" + decode(c.value)
  }

  // ---------------------------------------------------------------------
  // Feature sets

  /** The set of the texts `g` gives for the elements of `xs`. */
  function Image<T>(xs: seq<T>, g: T -> string): set<string>
  {
    if xs == [] then {} else Image(xs[..|xs| - 1], g) + {g(xs[|xs| - 1])}
  }

  lemma {:induction false} ImageMembership<T>(xs: seq<T>, g: T -> string, f: string)
    ensures f in Image(xs, g) <==> exists k :: 0 <= k < |xs| && f == g(xs[k])
    decreases |xs|
  {
    if xs != [] {
      var init := xs[..|xs| - 1];
      ImageMembership(init, g, f);
      if exists k :: 0 <= k < |xs| && f == g(xs[k]) {
        var k :| 0 <= k < |xs| && f == g(xs[k]);
        if k < |xs| - 1 {
          assert init[k] == xs[k];
        }
      }
      if exists k :: 0 <= k < |init| && f == g(init[k]) {
        var k :| 0 <= k < |init| && f == g(init[k]);
        assert xs[k] == init[k];
      }
    }
  }

  lemma {:induction false} ImageSize<T>(xs: seq<T>, g: T -> string)
    ensures 0 < |xs| ==> 0 < |Image(xs, g)| <= |xs|
    ensures xs == [] ==> Image(xs, g) == {}
    decreases |xs|
  {
    if xs != [] {
      ImageSize(xs[..|xs| - 1], g);
    }
  }

  /** The features of the characteristics of a service whose UUID text is
      `svcUuid`. */
  function CharFeatures(svcUuid: string, cs: seq<JsonChar>, decode: Decoder): set<string>
  {
    Image(cs, c => Feature(svcUuid, c, decode))
  }

  /** The features of a run of services. */
  function FeatureSet(ss: seq<JsonService>, decode: Decoder): set<string>
  {
    if ss == [] then {}
    else FeatureSet(ss[..|ss| - 1], decode) + CharFeatures(ServiceUuid(ss[|ss| - 1]), ss[|ss| - 1].characteristics, decode)
  }

  /** `profile_to_feature_set`: one feature per characteristic of every
      service, in two nested loops. */
  method ProfileToFeatureSet(profile: JsonProfile, decode: Decoder) returns (features: set<string>)
    ensures features == FeatureSet(profile.services, decode)
  {
    var ss := profile.services;
    features := {};
    var i := 0;
    while i < |ss|
      invariant 0 <= i <= |ss|
      invariant features == FeatureSet(ss[..i], decode)
    {
      var service := ss[i];
      var serviceUuid := UuidText(service.uuid, service.uuid128);
      var cs := service.characteristics;
      ghost var before := features;
      var j := 0;
      while j < |cs|
        invariant 0 <= j <= |cs|
        invariant features == before + CharFeatures(serviceUuid, cs[..j], decode)
      {
        var c := cs[j];
        var charUuid := UuidText(c.uuid, c.uuid128);
        var props := DecodeProperties(c.properties);
        var value := decode(c.value);
        var feature := serviceUuid + ":" + charUuid + ":" + props + ":" + value;
        assert feature == Feature(serviceUuid, c, decode);
        FeatureStep(serviceUuid, cs, j, decode);
        features := features + {feature};
        j := j + 1;
      }
      assert cs[..j] == cs;
      assert ss[..i + 1][..i] == ss[..i];
      i := i + 1;
    }
    assert ss[..i] == ss;
  }

  /** One more characteristic adds its feature. */
  lemma FeatureStep(svcUuid: string, cs: seq<JsonChar>, j: nat, decode: Decoder)
    requires j < |cs|
    ensures CharFeatures(svcUuid, cs[..j + 1], decode) == CharFeatures(svcUuid, cs[..j], decode) + {Feature(svcUuid, cs[j], decode)}
  {
    assert cs[..j + 1][..j] == cs[..j];
  }

  /** A feature of a profile is the feature of one characteristic of one of
      its services, and every characteristic gives one. */
  lemma {:induction false} FeatureSetMembership(ss: seq<JsonService>, decode: Decoder, f: string)
    ensures f in FeatureSet(ss, decode) <==>
              exists i, k :: 0 <= i < |ss| && 0 <= k < |ss[i].characteristics|
                             && f == Feature(ServiceUuid(ss[i]), ss[i].characteristics[k], decode)
    decreases |ss|
  {
    if ss != [] {
      var init := ss[..|ss| - 1];
      var last := ss[|ss| - 1];
      FeatureSetMembership(init, decode, f);
      var g := c => Feature(ServiceUuid(last), c, decode);
      ImageMembership(last.characteristics, g, f);
      if exists i, k :: 0 <= i < |ss| && 0 <= k < |ss[i].characteristics|
                        && f == Feature(ServiceUuid(ss[i]), ss[i].characteristics[k], decode) {
        var i, k :| 0 <= i < |ss| && 0 <= k < |ss[i].characteristics|
                    && f == Feature(ServiceUuid(ss[i]), ss[i].characteristics[k], decode);
        if i < |ss| - 1 {
          assert init[i] == ss[i];
        } else {
          assert f == g(last.characteristics[k]);
        }
      }
      if exists i, k :: 0 <= i < |init| && 0 <= k < |init[i].characteristics|
                        && f == Feature(ServiceUuid(init[i]), init[i].characteristics[k], decode) {
        var i, k :| 0 <= i < |init| && 0 <= k < |init[i].characteristics|
                    && f == Feature(ServiceUuid(init[i]), init[i].characteristics[k], decode);
        assert ss[i] == init[i];
      }
      if exists k :: 0 <= k < |last.characteristics| && f == g(last.characteristics[k]) {
        var k :| 0 <= k < |last.characteristics| && f == g(last.characteristics[k]);
        assert ss[|ss| - 1] == last;
      }
    }
  }

  /** A profile has no features exactly when none of its services has a
      characteristic. */
  lemma {:induction false} FeatureSetEmpty(ss: seq<JsonService>, decode: Decoder)
    ensures FeatureSet(ss, decode) == {} <==> forall i :: 0 <= i < |ss| ==> ss[i].characteristics == []
    decreases |ss|
  {
    if ss != [] {
      var init := ss[..|ss| - 1];
      var last := ss[|ss| - 1];
      FeatureSetEmpty(init, decode);
      ImageSize(last.characteristics, c => Feature(ServiceUuid(last), c, decode));
      if forall i :: 0 <= i < |init| ==> init[i].characteristics == [] {
        assert forall i :: 0 <= i < |ss| - 1 ==> ss[i].characteristics == init[i].characteristics;
      }
    }
  }

  /** The number of characteristics of a run of services. */
  function CharCount(ss: seq<JsonService>): nat
  {
    if ss == [] then 0 else CharCount(ss[..|ss| - 1]) + |ss[|ss| - 1].characteristics|
  }

  /** Characteristics alike in every shown field give one feature, so there
      are at most as many features as characteristics. */
  lemma {:induction false} FeatureSetSize(ss: seq<JsonService>, decode: Decoder)
    ensures |FeatureSet(ss, decode)| <= CharCount(ss)
    decreases |ss|
  {
    if ss != [] {
      var last := ss[|ss| - 1];
      FeatureSetSize(ss[..|ss| - 1], decode);
      ImageSize(last.characteristics, c => Feature(ServiceUuid(last), c, decode));
    }
  }

  // ---------------------------------------------------------------------
  // Feature text

  /** Four fields joined by colons, right to left. */
  lemma RegroupColons(a: string, b: string, p: string, v: string)
    ensures a + ":" + b + ":" + p + ":" + v == a + [':'] + (b + [':'] + (p + [':'] + v))
  {
    SeqAssoc(a + ":" + b + ":" + p, ":", v);
    SeqAssoc(a + ":" + b, ":", p + ":" + v);
    SeqAssoc(a + ":" + b, ":" + p, ":" + v);
    SeqAssoc(a + ":", b, ":" + p + ":" + v);
    SeqAssoc(a, ":", b + (":" + p + ":" + v));
    SeqAssoc(":", p, ":");
    SeqAssoc(":" + p, ":", v);
    SeqAssoc(b, ":", p + ":" + v);
    SeqAssoc(p, ":", v);
  }

  lemma ColonCount(x: string, y: string)
    ensures Count(x + ":" + y, ':') == Count(x, ':') + 1 + Count(y, ':')
  {
    CountAppend(x + ":", y, ':');
    CountAppend(x, ":", ':');
  }

  /** Four fields joined by colons, the third without one, split back into
      four parts exactly when no other field holds a colon. */
  lemma FourPartsCount(a: string, b: string, p: string, v: string)
    requires ':' !in p
    ensures |Split(a + ":" + b + ":" + p + ":" + v, ':')| == 4 <==> ':' !in a && ':' !in b && ':' !in v
  {
    var f := a + ":" + b + ":" + p + ":" + v;
    SplitCount(f, ':');
    ColonCount(a + ":" + b + ":" + p, v);
    ColonCount(a + ":" + b, p);
    ColonCount(a, b);
    CountPositive(a, ':');
    CountPositive(b, ':');
    CountPositive(p, ':');
    CountPositive(v, ':');
  }

  /** Four fields joined by colons, none holding one, split back into the
      fields. */
  lemma FourPartsSplit(a: string, b: string, p: string, v: string)
    requires ':' !in a && ':' !in b && ':' !in p && ':' !in v
    ensures Split(a + ":" + b + ":" + p + ":" + v, ':') == [a, b, p, v]
  {
    var r3 := p + [':'] + v;
    var r2 := b + [':'] + r3;
    RegroupColons(a, b, p, v);
    SplitAtSep(a, ':', r2);
    SplitAtSep(b, ':', r3);
    SplitAtSep(p, ':', v);
    SplitWithoutSep(v, ':');
    assert [a] + ([b] + ([p] + [v])) == [a, b, p, v];
  }

  /** A feature splits at its colons into four parts exactly when neither
      UUID text nor the value text holds a colon (the properties text never
      does), and the four parts are then the fields. */
  lemma FeatureParts(svcUuid: string, c: JsonChar, decode: Decoder)
    ensures var f := Feature(svcUuid, c, decode);
      |Split(f, ':')| == 4 <==> ':' !in svcUuid && ':' !in UuidText(c.uuid, c.uuid128) && ':' !in decode(c.value)
    ensures ':' !in svcUuid && ':' !in UuidText(c.uuid, c.uuid128) && ':' !in decode(c.value) ==>
      Split(Feature(svcUuid, c, decode), ':') == [svcUuid, UuidText(c.uuid, c.uuid128), PropertiesText(c.properties), decode(c.value)]
  {
    var b, p, v := UuidText(c.uuid, c.uuid128), PropertiesText(c.properties), decode(c.value);
    PropertiesTextPlain(c.properties);
    FourPartsCount(svcUuid, b, p, v);
    if ':' !in svcUuid && ':' !in b && ':' !in v {
      FourPartsSplit(svcUuid, b, p, v);
    }
  }

  /** A UUID printed from bytes never holds a colon, so a characteristic
      without a `uuid` text splits into four parts when the other fields
      allow it. */
  lemma FallbackUuidPlain(c: JsonChar)
    requires c.uuid.None? || c.uuid.value == ""
    ensures ':' !in UuidText(c.uuid, c.uuid128)
  {
    BytesToUuidChars(c.uuid128);
  }

  // ---------------------------------------------------------------------
  // Jaccard similarity

  /** A fraction `num / den` of natural numbers. */
  datatype Ratio = Ratio(num: nat, den: nat)

  /** `jaccard_similarity`: 0 for an empty union, else the intersection's
      size over the union's. */
  function Jaccard(a: set<string>, b: set<string>): (r: Ratio)
    ensures r.den > 0
  {
    if a + b == {} then Ratio(0, 1) else Ratio(|a * b|, |a + b|)
  }

  lemma JaccardSymmetric(a: set<string>, b: set<string>)
    ensures Jaccard(a, b) == Jaccard(b, a)
  {
    assert a * b == b * a && a + b == b + a;
  }

  /** The similarity lies between 0 and 1. */
  lemma JaccardBounded(a: set<string>, b: set<string>)
    ensures Jaccard(a, b).num <= Jaccard(a, b).den
  {
    if a + b != {} {
      assert |a - b| + |b - a| + |a * b| == |a + b|;
    }
  }

  /** The similarity is 1 exactly for two equal non-empty sets. */
  lemma JaccardOne(a: set<string>, b: set<string>)
    ensures Jaccard(a, b).num == Jaccard(a, b).den <==> a == b && a != {}
  {
    if a + b != {} {
      assert |a - b| + |b - a| + |a * b| == |a + b|;
      if |a * b| == |a + b| {
        assert |a - b| == 0 && |b - a| == 0;
        assert a - b == {} && b - a == {};
        assert forall x :: x in a <==> x in b;
      }
    }
    if a == b && a != {} {
      assert a * b == a && a + b == a;
    }
  }

  /** The similarity is 0 exactly for two sets without a common feature. */
  lemma JaccardZero(a: set<string>, b: set<string>)
    ensures Jaccard(a, b).num == 0 <==> a * b == {}
  {
    if a + b == {} {
      assert a == {} && b == {};
    }
  }

  // ---------------------------------------------------------------------
  // Collecting profiles

  /** `profile.get("remote_bda", "N/A")`. */
  function Bda(p: JsonProfile): string
  {
    match p.remoteBda
    case Some(b) => b
    case None => "N/A"
  }

  /** The addresses and sets kept when every profile without a feature is
      dropped, in order; `featuresOf` gives a profile's feature set. */
  function KeepNonEmpty(ps: seq<JsonProfile>, featuresOf: JsonProfile -> set<string>): (seq<string>, seq<set<string>>)
  {
    if ps == [] then ([], [])
    else
      var prev := KeepNonEmpty(ps[..|ps| - 1], featuresOf);
      var p := ps[|ps| - 1];
      var fs := featuresOf(p);
      if fs == {} then prev else (prev.0 + [Bda(p)], prev.1 + [fs])
  }

  /** A profile's feature set. */
  function ProfileFeatures(decode: Decoder): JsonProfile -> set<string>
  {
    (p: JsonProfile) => FeatureSet(p.services, decode)
  }

  /** The addresses and feature sets `process_all_gatt_profiles` keeps. */
  function Kept(ps: seq<JsonProfile>, decode: Decoder): (seq<string>, seq<set<string>>)
  {
    KeepNonEmpty(ps, ProfileFeatures(decode))
  }

  /** The loop of `process_all_gatt_profiles` over the decoded documents. */
  method ProcessAllGattProfiles(documents: seq<JsonProfile>, decode: Decoder)
    returns (macs: seq<string>, profiles: seq<set<string>>)
    ensures (macs, profiles) == Kept(documents, decode)
  {
    macs, profiles := [], [];
    var i := 0;
    while i < |documents|
      invariant 0 <= i <= |documents|
      invariant (macs, profiles) == Kept(documents[..i], decode)
    {
      var profile := documents[i];
      var features := ProfileToFeatureSet(profile, decode);
      assert documents[..i + 1][..i] == documents[..i];
      if features != {} {
        profiles := profiles + [features];
        macs := macs + [Bda(profile)];
      }
      i := i + 1;
    }
    assert documents[..i] == documents;
  }

  /** The two lists stay index-aligned, and no kept set is empty. */
  lemma {:induction false} KeepNonEmptyAligned(ps: seq<JsonProfile>, featuresOf: JsonProfile -> set<string>)
    ensures |KeepNonEmpty(ps, featuresOf).0| == |KeepNonEmpty(ps, featuresOf).1| <= |ps|
    ensures forall j :: 0 <= j < |KeepNonEmpty(ps, featuresOf).1| ==> KeepNonEmpty(ps, featuresOf).1[j] != {}
    decreases |ps|
  {
    if ps != [] {
      KeepNonEmptyAligned(ps[..|ps| - 1], featuresOf);
    }
  }

  /** Filtering keeps order: what two runs of documents keep is what the
      first keeps followed by what the second keeps. */
  lemma {:induction false} KeepNonEmptyConcat(ps: seq<JsonProfile>, qs: seq<JsonProfile>, featuresOf: JsonProfile -> set<string>)
    ensures var (a, b) := (KeepNonEmpty(ps, featuresOf), KeepNonEmpty(qs, featuresOf));
      KeepNonEmpty(ps + qs, featuresOf) == (a.0 + b.0, a.1 + b.1)
    decreases |qs|
  {
    if qs == [] {
      var a := KeepNonEmpty(ps, featuresOf);
      assert ps + qs == ps && a.0 + [] == a.0 && a.1 + [] == a.1;
    } else {
      var init := qs[..|qs| - 1];
      var q := qs[|qs| - 1];
      KeepNonEmptyConcat(ps, init, featuresOf);
      assert (ps + qs)[..|ps + qs| - 1] == ps + init;
      assert (ps + qs)[|ps + qs| - 1] == q;
      var a, b := KeepNonEmpty(ps, featuresOf), KeepNonEmpty(init, featuresOf);
      if featuresOf(q) != {} {
        SeqAssoc(a.0, b.0, [Bda(q)]);
        SeqAssoc(a.1, b.1, [featuresOf(q)]);
      }
    }
  }

  /** A single profile is kept, with its address, exactly when its set is
      not empty. */
  lemma KeepNonEmptyOne(p: JsonProfile, featuresOf: JsonProfile -> set<string>)
    ensures KeepNonEmpty([p], featuresOf) == if featuresOf(p) == {} then ([], []) else ([Bda(p)], [featuresOf(p)])
  {
    assert [p][..0] == [] && [p][0] == p;
    assert [] + [Bda(p)] == [Bda(p)] && [] + [featuresOf(p)] == [featuresOf(p)];
  }

  /** A single profile is kept, with its address, exactly when one of its
      services has a characteristic. */
  lemma KeptOne(p: JsonProfile, decode: Decoder)
    ensures (forall i :: 0 <= i < |p.services| ==> p.services[i].characteristics == []) ==> Kept([p], decode) == ([], [])
    ensures (exists i :: 0 <= i < |p.services| && p.services[i].characteristics != []) ==>
      Kept([p], decode) == ([Bda(p)], [FeatureSet(p.services, decode)])
  {
    var fs := FeatureSet(p.services, decode);
    FeatureSetEmpty(p.services, decode);
    KeepNonEmptyOne(p, ProfileFeatures(decode));
    assert ProfileFeatures(decode)(p) == fs;
  }

  // ---------------------------------------------------------------------
  // Filtering by address

  /** The indices `filter_changed_profiles` keeps among the first `n`
      pairs: those whose upper-cased address is in the list. */
  function Chosen(macs: seq<string>, filterList: seq<string>, n: nat): (ix: seq<nat>)
    requires n <= |macs|
    ensures forall j :: 0 <= j < |ix| ==> ix[j] < n
  {
    if n == 0 then [] else Chosen(macs, filterList, n - 1) + (if Upper(macs[n - 1]) in filterList then [n - 1] else [])
  }

  /** The elements at some indices. */
  function Pick<T>(xs: seq<T>, ix: seq<nat>): (r: seq<T>)
    requires forall j :: 0 <= j < |ix| ==> ix[j] < |xs|
    ensures |r| == |ix| && forall j :: 0 <= j < |ix| ==> r[j] == xs[ix[j]]
  {
    seq(|ix|, j requires 0 <= j < |ix| => xs[ix[j]])
  }

  function Min(a: nat, b: nat): nat
  {
    if a <= b then a else b
  }

  /** `filter_changed_profiles`: walks the pairs `zip` forms, keeping those
      whose upper-cased address is listed. */
  method FilterChangedProfiles(macs: seq<string>, profiles: seq<set<string>>, filterList: seq<string>)
    returns (filteredMacs: seq<string>, filteredProfiles: seq<set<string>>)
    ensures var ix := Chosen(macs, filterList, Min(|macs|, |profiles|));
      filteredMacs == Pick(macs, ix) && filteredProfiles == Pick(profiles, ix)
  {
    var n := Min(|macs|, |profiles|);
    filteredMacs, filteredProfiles := [], [];
    var i := 0;
    while i < n
      invariant 0 <= i <= n
      invariant filteredMacs == Pick(macs, Chosen(macs, filterList, i))
      invariant filteredProfiles == Pick(profiles, Chosen(macs, filterList, i))
    {
      var mac, prof := macs[i], profiles[i];
      if Upper(mac) in filterList {
        filteredMacs := filteredMacs + [mac];
        filteredProfiles := filteredProfiles + [prof];
      }
      i := i + 1;
    }
  }

  /** A pair is kept exactly when it is one of those `zip` forms and its
      upper-cased address is listed. */
  lemma {:induction false} ChosenMembership(macs: seq<string>, filterList: seq<string>, n: nat, i: nat)
    requires n <= |macs|
    ensures i in Chosen(macs, filterList, n) <==> i < n && Upper(macs[i]) in filterList
    decreases n
  {
    if n > 0 {
      ChosenMembership(macs, filterList, n - 1, i);
    }
  }

  /** The kept pairs keep their order. */
  lemma {:induction false} ChosenAscending(macs: seq<string>, filterList: seq<string>, n: nat)
    requires n <= |macs|
    ensures forall j, k :: 0 <= j < k < |Chosen(macs, filterList, n)| ==>
              Chosen(macs, filterList, n)[j] < Chosen(macs, filterList, n)[k]
    decreases n
  {
    if n > 0 {
      var prev := Chosen(macs, filterList, n - 1);
      var ix := Chosen(macs, filterList, n);
      ChosenAscending(macs, filterList, n - 1);
      assert forall j, k :: 0 <= j < k < |prev| ==> prev[j] < prev[k];
      assert forall j :: 0 <= j < |prev| ==> prev[j] < n - 1;
      assert ix == prev + if Upper(macs[n - 1]) in filterList then [n - 1] else [];
      assert forall j :: 0 <= j < |prev| ==> ix[j] == prev[j];
      assert |ix| == |prev| || (|ix| == |prev| + 1 && ix[|prev|] == n - 1);
    }
  }
}
