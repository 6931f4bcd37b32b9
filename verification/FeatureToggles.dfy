/** The feature-toggles panel: a global on/off switch per feature and a
    per-user permission map from feature id to a checked flag. */
module FeatureToggles {

  datatype Feature = Feature(id: string, name: string, enabled: bool)

  datatype UserPermission = UserPermission(
    userId: string,
    userEmail: string,
    features: map<string, bool>)

  /** The panel's two pieces of state. */
  datatype TogglesState = TogglesState(
    globalFeatures: seq<Feature>,
    userPermissions: seq<UserPermission>)

  function SetEnabled(features: seq<Feature>, featureId: string, enabled: bool): seq<Feature> {
    seq(|features|, i requires 0 <= i < |features| =>
      if features[i].id == featureId then features[i].(enabled := enabled) else features[i])
  }

  function SetPermission(perms: seq<UserPermission>, userId: string, featureId: string, checked: bool)
    : seq<UserPermission>
  {
    seq(|perms|, i requires 0 <= i < |perms| =>
      if perms[i].userId == userId
      then perms[i].(features := perms[i].features[featureId := checked])
      else perms[i])
  }

  /** `handleGlobalToggle`: only the feature with the id changes, and only its
      `enabled` flag; order, ids, names and the user permissions stay. */
  function HandleGlobalToggle(st: TogglesState, featureId: string, enabled: bool): (st': TogglesState)
    ensures st'.userPermissions == st.userPermissions
    ensures |st'.globalFeatures| == |st.globalFeatures|
    ensures forall i :: 0 <= i < |st.globalFeatures| ==>
              st'.globalFeatures[i].(enabled := st.globalFeatures[i].enabled) == st.globalFeatures[i]
    ensures forall i :: 0 <= i < |st.globalFeatures| && st.globalFeatures[i].id == featureId ==>
              st'.globalFeatures[i].enabled == enabled
    ensures forall i :: 0 <= i < |st.globalFeatures| && st.globalFeatures[i].id != featureId ==>
              st'.globalFeatures[i] == st.globalFeatures[i]
  {
    st.(globalFeatures := SetEnabled(st.globalFeatures, featureId, enabled))
  }

  /** `handleUserPermissionToggle`: the matching users get `featureId` set to
      `checked`; their other keys, their ids and e-mails, the other users and
      the global features stay. */
  function HandleUserPermissionToggle(st: TogglesState, userId: string, featureId: string, checked: bool)
    : (st': TogglesState)
    ensures st'.globalFeatures == st.globalFeatures
    ensures |st'.userPermissions| == |st.userPermissions|
    ensures forall i :: 0 <= i < |st.userPermissions| ==>
              && st'.userPermissions[i].userId == st.userPermissions[i].userId
              && st'.userPermissions[i].userEmail == st.userPermissions[i].userEmail
    ensures forall i :: 0 <= i < |st.userPermissions| && st.userPermissions[i].userId == userId ==>
              && featureId in st'.userPermissions[i].features
              && st'.userPermissions[i].features[featureId] == checked
              && st'.userPermissions[i].features.Keys == st.userPermissions[i].features.Keys + {featureId}
              && forall k :: k in st.userPermissions[i].features && k != featureId ==>
                   st'.userPermissions[i].features[k] == st.userPermissions[i].features[k]
    ensures forall i :: 0 <= i < |st.userPermissions| && st.userPermissions[i].userId != userId ==>
              st'.userPermissions[i] == st.userPermissions[i]
  {
    st.(userPermissions := SetPermission(st.userPermissions, userId, featureId, checked))
  }

  /** Two global toggles of the same feature: the last one wins, so repeating
      a toggle changes nothing. */
  lemma GlobalToggleLastWins(st: TogglesState, featureId: string, first: bool, second: bool)
    ensures HandleGlobalToggle(HandleGlobalToggle(st, featureId, first), featureId, second)
            == HandleGlobalToggle(st, featureId, second)
  {
    var once := SetEnabled(st.globalFeatures, featureId, first);
    assert forall i :: 0 <= i < |once| ==> once[i].id == st.globalFeatures[i].id;
  }

  /** Two permission toggles of the same user and feature: the last one wins,
      so repeating a toggle changes nothing. */
  lemma PermissionToggleLastWins(st: TogglesState, userId: string, featureId: string, first: bool, second: bool)
    ensures HandleUserPermissionToggle(HandleUserPermissionToggle(st, userId, featureId, first), userId, featureId, second)
            == HandleUserPermissionToggle(st, userId, featureId, second)
  {
    var once := SetPermission(st.userPermissions, userId, featureId, first);
    forall i | 0 <= i < |once| && once[i].userId == userId
      ensures once[i].features[featureId := second]
              == st.userPermissions[i].features[featureId := second]
    {
    }
  }

  /** Toggles of two different features, or of two different users, commute. */
  lemma TogglesCommute(st: TogglesState, u1: string, u2: string, f1: string, f2: string, a: bool, b: bool)
    ensures f1 != f2 ==>
      HandleGlobalToggle(HandleGlobalToggle(st, f1, a), f2, b)
      == HandleGlobalToggle(HandleGlobalToggle(st, f2, b), f1, a)
    ensures u1 != u2 || f1 != f2 ==>
      HandleUserPermissionToggle(HandleUserPermissionToggle(st, u1, f1, a), u2, f2, b)
      == HandleUserPermissionToggle(HandleUserPermissionToggle(st, u2, f2, b), u1, f1, a)
  {
    if u1 != u2 || f1 != f2 {
      var p := st.userPermissions;
      var left := SetPermission(SetPermission(p, u1, f1, a), u2, f2, b);
      var right := SetPermission(SetPermission(p, u2, f2, b), u1, f1, a);
      forall i | 0 <= i < |p| ensures left[i] == right[i] {
        if p[i].userId == u1 && p[i].userId == u2 {
          assert p[i].features[f1 := a][f2 := b] == p[i].features[f2 := b][f1 := a];
        }
      }
    }
  }
}
