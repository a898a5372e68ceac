/**
 Audit changes are sanitized twice, once by the service under the caller's resource type and
 once by the repository under the normalized one.

 Trimming and lower-casing are parameters of which only their effect on ASCII names is used.
 */
module AuditRedaction {
  import opened Wrappers

  datatype Scalar = NoValue | Flag(b: bool) | Number(n: int) | Text(s: string) | Unsupported

  datatype Change = Change(field: string, oldValue: Scalar, newValue: Scalar)

  const MAX_TEXT: nat := 512
  const MAX_NAME: nat := 100

  const SENSITIVE_WORDS: seq<string> := [
    "password", "passphrase", "token", "jwt", "secret", "otp", "totp", "recovery", "credential", "authorization",
    "cookie", "sessionsecret", "encryption", "privatekey", "apikey", "database"
  ]

  function Lower(c: char): char {
    if 'A' <= c <= 'Z' then (c as int - 'A' as int + 'a' as int) as char else c
  }

  predicate OccursAt(word: string, text: string, at: nat) {
    at + |word| <= |text| && forall i :: 0 <= i < |word| ==> Lower(text[at + i]) == word[i]
  }

  ghost predicate Sensitive(field: string) {
    exists w, at: nat :: 0 <= w < |SENSITIVE_WORDS| && OccursAt(SENSITIVE_WORDS[w], field, at)
  }

  function Slice(s: string, limit: nat): string {
    if |s| <= limit then s else s[..limit]
  }

  function SanitizeScalar(value: Scalar): Scalar {
    match value
    case Text(s) => Text(Slice(s, MAX_TEXT))
    case Unsupported => NoValue
    case _ => value
  }

  ghost predicate Kept(allowed: set<string>, field: string) {
    field != "" && !Sensitive(field) && (allowed != {} ==> field in allowed)
  }

  ghost function Sanitize(allowed: set<string>, changes: seq<Change>): seq<Change> {
    if changes == [] then []
    else
      (if Kept(allowed, changes[0].field) then
         [Change(Slice(changes[0].field, MAX_NAME), SanitizeScalar(changes[0].oldValue),
                 SanitizeScalar(changes[0].newValue))]
       else [])
      + Sanitize(allowed, changes[1..])
  }

  // ----- Two passes against one, for any two allowlists

  /** Whatever the second list lets through, the first one does. */
  ghost predicate Compatible(first: set<string>, second: set<string>) {
    forall field :: Kept(second, field) ==> Kept(first, field)
  }

  ghost predicate ShortNames(allowed: set<string>) {
    forall name :: name in allowed ==> |name| < MAX_NAME
  }

  lemma SliceStaysHarmless(field: string)
    requires !Sensitive(field)
    ensures !Sensitive(Slice(field, MAX_NAME))
  {
    forall w, at: nat | 0 <= w < |SENSITIVE_WORDS|
      ensures OccursAt(SENSITIVE_WORDS[w], Slice(field, MAX_NAME), at) ==> OccursAt(SENSITIVE_WORDS[w], field, at)
    {
    }
  }

  /** No field name that comes out is sensitive, even after it was cut. */
  lemma {:induction false} NoSensitiveFieldSurvives(allowed: set<string>, changes: seq<Change>)
    ensures forall i :: 0 <= i < |Sanitize(allowed, changes)| ==>
              !Sensitive(Sanitize(allowed, changes)[i].field) && |Sanitize(allowed, changes)[i].field| <= MAX_NAME
  {
    if changes != [] {
      NoSensitiveFieldSurvives(allowed, changes[1..]);
      if Kept(allowed, changes[0].field) {
        SliceStaysHarmless(changes[0].field);
      }
    }
  }

  lemma CutNameKeptAlike(allowed: set<string>, field: string)
    requires ShortNames(allowed) && field != "" && !Sensitive(field)
    ensures Kept(allowed, Slice(field, MAX_NAME)) <==> Kept(allowed, field)
  {
    SliceStaysHarmless(field);
    assert |field| > MAX_NAME ==> field !in allowed && Slice(field, MAX_NAME) !in allowed;
  }

  lemma {:induction false} TwoPassesAreOne(first: set<string>, second: set<string>, changes: seq<Change>)
    requires ShortNames(second) && Compatible(first, second)
    ensures Sanitize(second, Sanitize(first, changes)) == Sanitize(second, changes)
  {
    if changes != [] {
      var rest := Sanitize(first, changes[1..]);
      TwoPassesAreOne(first, second, changes[1..]);
      if Kept(first, changes[0].field) {
        CutNameKeptAlike(second, changes[0].field);
        assert Sanitize(first, changes)[1..] == rest;
      } else {
        assert !Kept(second, changes[0].field);
        assert Sanitize(first, changes) == rest;
      }
    }
  }

  /** Two passes store what one would, for all changes, exactly when the lists are compatible. */
  lemma TwoPassesAreOneIff(first: set<string>, second: set<string>)
    requires ShortNames(second)
    ensures (forall changes :: Sanitize(second, Sanitize(first, changes)) == Sanitize(second, changes)) <==>
            Compatible(first, second)
  {
    if Compatible(first, second) {
      forall changes ensures Sanitize(second, Sanitize(first, changes)) == Sanitize(second, changes) {
        TwoPassesAreOne(first, second, changes);
      }
    } else {
      var field :| Kept(second, field) && !Kept(first, field);
      var changes := [Change(field, NoValue, NoValue)];
      assert changes[1..] == [];
      assert Sanitize(first, changes) == [];
      assert Sanitize(second, changes) != [];
      assert Sanitize(second, Sanitize(first, changes)) != Sanitize(second, changes);
    }
  }

  // ----- The allowlists and the resource types

  function AllowedFields(resource: string): (names: set<string>)
    ensures ShortNames(names)
  {
    var account := AccountFields(resource);
    if account != {} then account else PropertyFields(resource)
  }

  function AccountFields(resource: string): (names: set<string>)
    ensures ShortNames(names)
  {
    match resource
    case "AuthenticationUser" => UserFields()
    case "user" => UserFields()
    case "AuthorizationRole" => {"name", "description", "isActive"}
    case "role" => {"name", "description", "isActive"}
    case "AuthorizationPermission" => {"name"}
    case "permission" => {"name"}
    case "AuthorizationRolePermission" => {"permission"}
    case "role_permission" => {"permission"}
    case "user_role" => {"targetUserUuid", "roleUuid"}
    case "AuthenticationSession" => {"reason"}
    case "session" => {"reason"}
    case "two_factor" => {"enabled", "reason"}
    case "authentication" => {"reason"}
    case _ => {}
  }

  function UserFields(): set<string> {
    {"username", "email", "phone", "status", "isActive"}
  }

  function PropertyFields(resource: string): (names: set<string>)
    ensures ShortNames(names)
  {
    match resource
    case "property" =>
      {"businessCode", "referenceNumber", "code", "name", "title", "slug", "description", "shortDescription", "status",
       "availabilityStatus", "availableFrom", "availableTo", "isActive", "sortOrder"}
    case "property_type" => {"code", "name", "slug", "description", "icon", "isActive", "sortOrder"}
    case "property_specification" =>
      {"landArea", "buildingArea", "floorArea", "bedrooms", "bathrooms", "maidRooms", "guestToilets", "floors",
       "parkingType", "parkingSpaces", "livingRooms", "familyRooms", "diningRooms", "kitchens", "yearBuilt",
       "yearRenovated", "orientation", "condition", "furnishedStatus", "ceilingHeightM", "frontageM", "roadWidthM"}
    case _ => PropertyPlaceFields(resource)
  }

  function PropertyPlaceFields(resource: string): (names: set<string>)
    ensures ShortNames(names)
  {
    match resource
    case "property_location" =>
      {"countryUuid", "provinceUuid", "cityUuid", "districtUuid", "subdistrictUuid", "addressLine", "street",
       "building",
       "block", "unit", "neighborhood", "postalCode", "latitude", "longitude", "coordinateAccuracy", "mapProvider",
       "placeId", "mapUrl", "floodRisk", "earthquakeRisk", "trafficRisk", "noiseRisk", "airQualityRisk"}
    case "property_building" =>
      {"foundation", "structure", "walls", "roof", "flooring", "doors", "windows", "facade", "garden", "terrace",
       "balcony", "rooftop", "hasPool", "poolLengthM", "poolWidthM", "poolDepthM", "interiorStyle", "interiorDesign",
       "naturalLighting", "ventilation", "smartHome", "soundproofing"}
    case _ => PropertyUnitFields(resource)
  }

  function PropertyUnitFields(resource: string): (names: set<string>)
    ensures ShortNames(names)
  {
    match resource
    case "property_room" =>
      {"roomType", "name", "floor", "area", "hasBathroom", "hasWalkInCloset", "hasBalcony", "hasAirConditioning",
       "sortOrder"}
    case "property_facility" => {"facilityUuid", "available", "quantity", "notes", "count"}
    case "property_listing" => {"listingCode", "transactionType", "status", "visibility", "featured", "premium",
                                "version"}
    case "property_utilities" =>
      {"electricityProvider", "electricityCapacityKva", "waterSource", "waterBackupSource", "gasType", "internetFiber",
       "sewageType", "drainageType", "drainageCondition", "backupPowerType", "backupPowerCapacityKva"}
    case _ => PropertyPartFields(resource)
  }

  function PropertyPartFields(resource: string): (names: set<string>)
    ensures ShortNames(names)
  {
    match resource
    case "property_legal" =>
      {"ownershipType", "ownershipStatus", "verificationStatus", "verificationSource", "zoningZone", "allowedUse",
       "buildingCoverageRatio", "floorAreaRatio"}
    case "property_certificate" => {"type", "status", "numberChanged"}
    case "property_financial" =>
      {"currency", "negotiable", "investmentRating", "askingPrice", "annualPropertyTax", "monthlyMaintenance",
       "monthlyUtilityCost", "monthlyServiceCharges", "rentalYield", "annualRentalIncome", "capitalGrowth"}
    case "property_features" =>
      {"petFriendly", "childFriendly", "wheelchairAccessible", "elderlyFriendly", "smokingAllowed", "eventsAllowed",
       "rentalAllowed"}
    case "property_security" => {"securityGuard", "cctv", "accessControl", "gatedCommunity", "smartLock", "alarmSystem"}
    case _ => PropertyDetailFields(resource)
  }

  function PropertyDetailFields(resource: string): (names: set<string>)
    ensures ShortNames(names)
  {
    match resource
    case "property_environment" =>
      {"greenBuilding", "solarPower", "rainwaterHarvesting", "waterSaving", "greenCertification"}
    case "property_seo" => {"title", "description", "robots", "metadataVersion", "schemaType", "source"}
    case "property_media" => {"type", "category", "sortOrder", "isCover", "provider"}
    case "property_agent_assignment" => {"agentUserUuid", "isPrimary", "assignedAt", "unassignedAt"}
    case "property_owner" => {"ownerType"}
    case _ => {}
  }

  predicate Accepted(resource: string) {
    resource in ACCOUNT_RESOURCES || resource in SYSTEM_RESOURCES || resource in PROPERTY_RESOURCES
    || resource in CRM_RESOURCES || resource in SALES_RESOURCES
  }

  const ACCOUNT_RESOURCES: seq<string> := [
    "authentication", "authentication_refresh_token", "authentication_refresh_token_family", "user", "profile",
    "credential", "session", "role", "permission", "role_permission", "user_role", "two_factor", "recovery_code",
    "audit_log"
  ]

  const SYSTEM_RESOURCES: seq<string> := [
    "system_setting", "system_export", "system_import", "system_webhook", "system_webhook_delivery",
    "system_integration", "system_integration_operation", "recommendation", "feedback", "matching_rule",
    "notification_delivery"
  ]

  const PROPERTY_RESOURCES: seq<string> := [
    "property", "property_type", "property_specification", "property_location", "property_building", "property_room",
    "property_facility", "property_utilities", "property_legal", "property_certificate", "property_financial",
    "property_features", "property_security", "property_environment", "property_seo", "property_media"
  ]

  const CRM_RESOURCES: seq<string> := [
    "contact", "contact_child", "contact_relationship", "lead", "score_rule", "duplicate", "inquiry", "activity",
    "communication", "communication_template", "source", "campaign", "type", "status", "tag"
  ]

  const SALES_RESOURCES: seq<string> := [
    "sales_pipeline", "sales_pipeline_stage", "sales_opportunity", "sales_activity", "sales_viewing",
    "sales_negotiation", "sales_offer", "sales_deal", "sales_deal_item", "sales_closing", "sales_lost_reason",
    "sales_commission_rule", "sales_commission", "sales_forecast"
  ]

  function Alias(name: string): Option<string> {
    match name
    case "Authentication" => Some("authentication")
    case "AuthenticationUser" => Some("user")
    case "AuthenticationUserProfile" => Some("profile")
    case "AuthenticationUserCredential" => Some("credential")
    case "AuthenticationUserSession" => Some("session")
    case "AuthenticationUserTwoFactor" => Some("two_factor")
    case "AuthenticationUserTwoFactorRecoveryCode" => Some("recovery_code")
    case "AuthorizationRole" => Some("role")
    case "AuthorizationPermission" => Some("permission")
    case "AuthorizationRolePermission" => Some("role_permission")
    case "AuditLog" => Some("audit_log")
    case _ => None
  }

  /** Trimming, and lower-casing with every character outside a-z, 0-9 and _ made an underscore. */
  datatype Texts = Texts(trim: string -> string, clean: string -> string)

  predicate NameChar(c: char) {
    'a' <= c <= 'z' || 'A' <= c <= 'Z' || '0' <= c <= '9' || c == '_'
  }

  predicate Name(s: string) {
    s != "" && |s| <= MAX_NAME && forall i :: 0 <= i < |s| ==> NameChar(s[i])
  }

  predicate LowerName(s: string) {
    Name(s) && forall i :: 0 <= i < |s| ==> Lower(s[i]) == s[i]
  }

  function LowerAll(s: string): string {
    seq(|s|, i requires 0 <= i < |s| => Lower(s[i]))
  }

  ghost predicate AsciiAsUsual(texts: Texts) {
    forall s :: Name(s) ==> texts.trim(s) == s && texts.clean(s) == LowerAll(s)
  }

  function NormalizeType(texts: Texts, value: Option<string>): Option<string> {
    if value.None? || value.value == "" then None
    else
      var trimmed := texts.trim(value.value);
      if Alias(trimmed).Some? then Alias(trimmed) else Some(Slice(texts.clean(trimmed), MAX_NAME))
  }

  function OrAuthentication(value: Option<string>): string {
    if value.Some? then value.value else "authentication"
  }

  /** The changes stored for an event with the given entity type: None when the repository refuses it. */
  ghost function Stored(texts: Texts, entityType: Option<string>, changes: seq<Change>): Option<seq<Change>> {
    var sent := Sanitize(AllowedFields(OrAuthentication(entityType)), changes);
    var resource := NormalizeType(texts, Some(OrAuthentication(entityType)));
    if resource.Some? && !Accepted(resource.value) then None
    else Some(Sanitize(AllowedFields(OrAuthentication(resource)), sent))
  }

  lemma LowerNamesStay(texts: Texts, s: string)
    requires AsciiAsUsual(texts) && LowerName(s) && Alias(s).None?
    ensures NormalizeType(texts, Some(s)) == Some(s)
  {
    assert LowerAll(s) == s;
  }

  lemma AliasesAreCapitalized(s: string)
    requires Alias(s).Some?
    ensures !LowerName(s)
  {
    assert s[0] == 'A';
  }

  lemma AccountNamesAreLower(s: string)
    requires s in ["user", "role", "permission", "role_permission", "user_role", "session", "two_factor",
                   "authentication"]
    ensures LowerName(s)
  {
  }

  lemma PropertyNamesAreLower(s: string)
    requires s in ["property", "property_type", "property_specification", "property_location", "property_building"]
    ensures LowerName(s)
  {
  }

  lemma PropertyUnitNamesAreLower(s: string)
    requires s in ["property_room", "property_facility", "property_listing", "property_utilities"]
    ensures LowerName(s)
  {
  }

  lemma PropertyPartNamesAreLower(s: string)
    requires s in ["property_legal", "property_certificate", "property_financial", "property_features",
                   "property_security"]
    ensures LowerName(s)
  {
  }

  lemma PropertyDetailNamesAreLower(s: string)
    requires s in ["property_environment", "property_seo", "property_media", "property_agent_assignment",
                   "property_owner"]
    ensures LowerName(s)
  {
  }

  lemma ListedNameIsLower(s: string)
    requires PropertyFields(s) != {}
    ensures LowerName(s)
  {
    if s in ["property", "property_type", "property_specification", "property_location", "property_building"] {
      PropertyNamesAreLower(s);
    } else if s in ["property_room", "property_facility", "property_listing", "property_utilities"] {
      PropertyUnitNamesAreLower(s);
    } else if s in ["property_legal", "property_certificate", "property_financial", "property_features",
                    "property_security"] {
      PropertyPartNamesAreLower(s);
    } else {
      PropertyDetailNamesAreLower(s);
    }
  }

  lemma NoSuchAccountResource(r: string)
    requires |r| == 21 && r[0] == 'a'
    ensures r !in ACCOUNT_RESOURCES && r !in CRM_RESOURCES
  {
    assert forall i :: 0 <= i < |ACCOUNT_RESOURCES| ==> |ACCOUNT_RESOURCES[i]| != 21;
    assert forall i :: 0 <= i < |CRM_RESOURCES| ==> |CRM_RESOURCES[i]| != 21;
  }

  lemma NoSuchOtherResource(r: string)
    requires |r| == 21 && r[0] == 'a'
    ensures r !in SYSTEM_RESOURCES && r !in PROPERTY_RESOURCES && r !in SALES_RESOURCES
  {
    assert forall i :: 0 <= i < |SYSTEM_RESOURCES| ==> SYSTEM_RESOURCES[i][0] != 'a';
    assert forall i :: 0 <= i < |PROPERTY_RESOURCES| ==> PROPERTY_RESOURCES[i][0] != 'a';
    assert forall i :: 0 <= i < |SALES_RESOURCES| ==> SALES_RESOURCES[i][0] != 'a';
  }

  lemma SessionEntityIsRefused(texts: Texts)
    requires AsciiAsUsual(texts)
    ensures var r := NormalizeType(texts, Some("AuthenticationSession")); r.Some? && !Accepted(r.value)
  {
    var s := "AuthenticationSession";
    assert Name(s);
    var r := LowerAll(s);
    assert |r| == 21 && r[0] == 'a';
    NoSuchAccountResource(r);
    NoSuchOtherResource(r);
  }

  lemma AliasHasSameList(texts: Texts, s: string)
    requires AsciiAsUsual(texts)
    requires s in ["AuthenticationUser", "AuthorizationRole", "AuthorizationPermission", "AuthorizationRolePermission"]
    ensures var r := NormalizeType(texts, Some(s)); r.Some? && AllowedFields(r.value) == AllowedFields(s)
  {
    AliasedNames(s);
    AliasedLists(s);
  }

  lemma AliasedNames(s: string)
    requires s in ["AuthenticationUser", "AuthorizationRole", "AuthorizationPermission", "AuthorizationRolePermission"]
    ensures Name(s) && Alias(s).Some?
  {
  }

  lemma AliasedLists(s: string)
    requires s in ["AuthenticationUser", "AuthorizationRole", "AuthorizationPermission", "AuthorizationRolePermission"]
    requires Alias(s).Some?
    ensures AccountFields(Alias(s).value) == AccountFields(s) != {}
  {
  }

  predicate Capitalized(s: string) {
    s in ["AuthenticationUser", "AuthorizationRole", "AuthorizationPermission", "AuthorizationRolePermission",
          "AuthenticationSession"]
  }

  lemma OtherListedNamesAreLower(s: string)
    requires AllowedFields(s) != {} && !Capitalized(s)
    ensures LowerName(s)
  {
    if AccountFields(s) != {} {
      OtherListsAreAccountLists(s);
      AccountNamesAreLower(s);
    } else {
      ListedNameIsLower(s);
    }
  }

  lemma OtherListsAreAccountLists(s: string)
    requires AccountFields(s) != {} && !Capitalized(s)
    ensures s in ["user", "role", "permission", "role_permission", "user_role", "session", "two_factor",
                  "authentication"]
  {
  }

  /** A resource type with an allowlist of its own normalizes to one with the same list, or is refused. */
  lemma {:induction false} SameListAfterNormalizing(texts: Texts, s: string)
    requires AsciiAsUsual(texts) && AllowedFields(s) != {}
    ensures var r := NormalizeType(texts, Some(s));
            r.Some? && (Accepted(r.value) ==> AllowedFields(r.value) == AllowedFields(s))
  {
    if s == "AuthenticationSession" {
      SessionEntityIsRefused(texts);
    } else if Capitalized(s) {
      AliasHasSameList(texts, s);
    } else {
      OtherListedNamesAreLower(s);
      if Alias(s).Some? {
        AliasesAreCapitalized(s);
      }
      LowerNamesStay(texts, s);
    }
  }

  /**
   For every entity type, given or not, an event the repository accepts is stored with exactly
   the changes one pass under the normalized type would keep.
   */
  lemma {:induction false} StoredAsInOnePass(texts: Texts, entityType: Option<string>, changes: seq<Change>)
    requires AsciiAsUsual(texts) && Stored(texts, entityType, changes).Some?
    ensures var resource := OrAuthentication(NormalizeType(texts, Some(OrAuthentication(entityType))));
            Stored(texts, entityType, changes) == Some(Sanitize(AllowedFields(resource), changes))
  {
    var raw := OrAuthentication(entityType);
    var resource := OrAuthentication(NormalizeType(texts, Some(raw)));
    if AllowedFields(raw) != {} {
      SameListAfterNormalizing(texts, raw);
    }
    TwoPassesAreOne(AllowedFields(raw), AllowedFields(resource), changes);
  }

  // ----- What is stored of each change

  /** Flags and numbers stay, texts are cut at 512 characters, anything else becomes no value. */
  ghost predicate Cleaned(value: Scalar, stored: Scalar) {
    match value
    case NoValue => stored == NoValue
    case Unsupported => stored == NoValue
    case Text(s) => stored.Text? && stored.s <= s && |stored.s| == if |s| <= 512 then |s| else 512
    case _ => stored == value
  }

  lemma FirstChange(allowed: set<string>, changes: seq<Change>)
    requires changes != []
    ensures Sanitize(allowed, changes) == Sanitize(allowed, [changes[0]]) + Sanitize(allowed, changes[1..])
  {
    assert [changes[0]][1..] == [] && [changes[0]][0] == changes[0];
  }

  /** Changes are sanitized one by one, in their order. */
  lemma {:induction false} SanitizeJoins(allowed: set<string>, a: seq<Change>, b: seq<Change>)
    ensures Sanitize(allowed, a + b) == Sanitize(allowed, a) + Sanitize(allowed, b)
  {
    if a == [] {
      assert a + b == b;
    } else {
      assert (a + b)[0] == a[0] && (a + b)[1..] == a[1..] + b;
      FirstChange(allowed, a + b);
      FirstChange(allowed, a);
      SanitizeJoins(allowed, a[1..], b);
    }
  }

  /**
   A change is stored unless its field is empty, holds a sensitive word, or is off a list that is
   not empty; the name is cut at 100 characters and both values are cleaned.
   */
  lemma {:induction false} OneChange(allowed: set<string>, change: Change)
    ensures var stored := Sanitize(allowed, [change]);
            if change.field == "" || (allowed != {} && change.field !in allowed) || Sensitive(change.field) then
              stored == []
            else
              && |stored| == 1
              && stored[0].field <= change.field
              && |stored[0].field| == (if |change.field| <= 100 then |change.field| else 100)
              && Cleaned(change.oldValue, stored[0].oldValue) && Cleaned(change.newValue, stored[0].newValue)
  {
    assert [change][1..] == [];
  }
}
