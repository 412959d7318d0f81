/** Findings and their comparison fingerprints (web/src/features/comparison/fingerprint.ts). */
module Fingerprint {
  import opened Wrappers
  import opened JsonText

  datatype Severity = Critical | High | Medium | Low

  datatype Finding =
    | KubernetesFinding(
        checkId: Units, clusterContext: Units, namespace: Units, resourceKind: Units, resourceName: Units,
        containerName: Option<Units>, title: Units, severity: Severity, evidence: Units, impact: Units,
        recommendation: Units, autoRemediable: bool, auditedAt: Units)
    | GitLabFinding(
        checkId: Units, projectPath: Units, resourceKind: Units, resourceName: Units, jobName: Option<Units>,
        title: Units, severity: Severity, evidence: Units, impact: Units, recommendation: Units,
        autoRemediable: bool, auditedAt: Units)
  {
    /** The fields that say which condition a finding is about. */
    function IdentityFields(): seq<Field> {
      match this
      case KubernetesFinding(_, _, _, _, _, _, _, _, _, _, _, _, _) =>
        [Some(checkId), Some(clusterContext), Some(namespace), Some(resourceKind), Some(resourceName), containerName]
      case GitLabFinding(_, _, _, _, _, _, _, _, _, _, _, _) =>
        [Some(checkId), Some(projectPath), Some(resourceKind), Some(resourceName), jobName]
    }
  }

  /** Same platform and the same identity, field by field. */
  predicate SameIdentity(a: Finding, b: Finding) {
    a.checkId == b.checkId && a.resourceKind == b.resourceKind && a.resourceName == b.resourceName &&
    match a
    case KubernetesFinding(_, _, _, _, _, _, _, _, _, _, _, _, _) =>
      b.KubernetesFinding? && a.clusterContext == b.clusterContext && a.namespace == b.namespace && a.containerName == b.containerName
    case GitLabFinding(_, _, _, _, _, _, _, _, _, _, _, _) =>
      b.GitLabFinding? && a.projectPath == b.projectPath && a.jobName == b.jobName
  }

  function ComputeFingerprint(f: Finding): Units { Stringify(f.IdentityFields()) }

  /**
   Two findings have the same fingerprint exactly when all their identity fields agree, an absent
   container or job differing from one named "null".
   */
  lemma FingerprintsIdentify(a: Finding, b: Finding)
    ensures ComputeFingerprint(a) == ComputeFingerprint(b) <==> SameIdentity(a, b)
  {
    var xs, ys := a.IdentityFields(), b.IdentityFields();
    StringifyParses(xs);
    StringifyParses(ys);
    if ComputeFingerprint(a) == ComputeFingerprint(b) {
      assert xs == ys;
      assert xs[0] == ys[0] && xs[1] == ys[1] && xs[2] == ys[2] && xs[3] == ys[3] && xs[4] == ys[4] && |xs| == |ys|;
      if a.KubernetesFinding? { assert xs[5] == ys[5]; }
    }
  }
}
