/** Collecting components, vulnerabilities and packages, for any keys and any way of referring to a
  key (app/depscan/sbom.py). */
module BillOfMaterials {
  import opened Prelude

  datatype Finding<K> = Finding(key: K, osvId: string)

  datatype Component<K> = Component(bomRef: string, key: K)

  datatype Vulnerability = Vulnerability(osvId: string, affects: string)

  datatype SpdxPackage<K> = SpdxPackage(index: nat, key: K, locator: string)

  function FindingKeys<K>(findings: seq<Finding<K>>): seq<K> {
    if findings == [] then [] else FindingKeys(Front(findings)) + [Last(findings).key]
  }

  /** The dictionary of components under construction: `order` is its insertion order. */
  ghost predicate Components<K>(
    purl: K -> string, order: seq<K>, components: map<K, Component<K>>, keys: seq<K>)
  {
    && order == FirstOccurrences(keys)
    && components.Keys == (set k | k in keys)
    && (forall k :: k in components ==> components[k] == Component(purl(k), k))
  }

  /** The first `n` vulnerabilities belong to the first `n` findings, each referring to the component
    that holds the key of its finding. */
  ghost predicate Refer<K>(
    vulnerabilities: seq<Vulnerability>, findings: seq<Finding<K>>, components: map<K, Component<K>>)
  {
    && |vulnerabilities| == |findings|
    && forall n :: 0 <= n < |findings| ==>
         && vulnerabilities[n].osvId == findings[n].osvId
         && findings[n].key in components
         && vulnerabilities[n].affects == components[findings[n].key].bomRef
  }

  ghost predicate Extends<K>(components: map<K, Component<K>>, components': map<K, Component<K>>) {
    forall k :: k in components ==> k in components' && components'[k] == components[k]
  }

  lemma ReferStep<K>(
      vulnerabilities: seq<Vulnerability>, findings: seq<Finding<K>>, f: Finding<K>,
      components: map<K, Component<K>>, components': map<K, Component<K>>)
    requires Refer(vulnerabilities, findings, components) && Extends(components, components')
    requires f.key in components'
    ensures Refer(vulnerabilities + [Vulnerability(f.osvId, components'[f.key].bomRef)], findings + [f], components')
  {
  }

  method AddComponent<K(==)>(
      purl: K -> string, order: seq<K>, components: map<K, Component<K>>, k: K, ghost keys: seq<K>)
    returns (order': seq<K>, components': map<K, Component<K>>, bomRef: string)
    requires Components(purl, order, components, keys)
    ensures Components(purl, order', components', keys + [k])
    ensures k in components' && bomRef == components'[k].bomRef
    ensures Extends(components, components')
  {
    assert Front(keys + [k]) == keys;
    order', components' := order, components;
    if k !in components {
      components' := components[k := Component(purl(k), k)];
      order' := order + [k];
    }
    bomRef := components'[k].bomRef;
  }

  method AddInventory<K(==)>(purl: K -> string, inventory: seq<K>)
    returns (order: seq<K>, components: map<K, Component<K>>)
    ensures Components(purl, order, components, inventory)
  {
    order, components := [], map[];
    for n := 0 to |inventory|
      invariant Components(purl, order, components, inventory[..n])
    {
      assert inventory[..n + 1] == inventory[..n] + [inventory[n]];
      var ref;
      order, components, ref := AddComponent(purl, order, components, inventory[n], inventory[..n]);
    }
    assert inventory[..|inventory|] == inventory;
  }

  lemma FindingsStep<K>(findings: seq<Finding<K>>, n: nat)
    requires n < |findings|
    ensures findings[..n + 1] == findings[..n] + [findings[n]]
    ensures FindingKeys(findings[..n + 1]) == FindingKeys(findings[..n]) + [findings[n].key]
  {
    assert Front(findings[..n + 1]) == findings[..n];
  }

  method AddFindings<K(==)>(
      purl: K -> string, findings: seq<Finding<K>>, ghost keys: seq<K>,
      order: seq<K>, components: map<K, Component<K>>)
    returns (order': seq<K>, components': map<K, Component<K>>, vulnerabilities: seq<Vulnerability>)
    requires Components(purl, order, components, keys)
    ensures Components(purl, order', components', keys + FindingKeys(findings))
    ensures Refer(vulnerabilities, findings, components')
  {
    order', components', vulnerabilities := order, components, [];
    ghost var done := keys;
    for n := 0 to |findings|
      invariant done == keys + FindingKeys(findings[..n])
      invariant Components(purl, order', components', done)
      invariant Refer(vulnerabilities, findings[..n], components')
    {
      FindingsStep(findings, n);
      var f, before, ref := findings[n], components', "";
      order', components', ref := AddComponent(purl, order', components', f.key, done);
      ReferStep(vulnerabilities, findings[..n], f, before, components');
      vulnerabilities := vulnerabilities + [Vulnerability(f.osvId, ref)];
      done := done + [f.key];
    }
    assert findings[..|findings|] == findings;
  }

  /** Every key of the inventory and of the findings has exactly one component, in the order of
    first occurrence; and every finding has one vulnerability, which refers to the component that
    holds the key of that finding. */
  method BuildCycloneDx<K(==)>(
      purl: K -> string, findings: seq<Finding<K>>, inventory: seq<K>)
    returns (order: seq<K>, components: map<K, Component<K>>, vulnerabilities: seq<Vulnerability>)
    ensures Components(purl, order, components, inventory + FindingKeys(findings))
    ensures Distinct(order) && components.Keys == (set k | k in order)
    ensures Refer(vulnerabilities, findings, components)
  {
    order, components := AddInventory(purl, inventory);
    order, components, vulnerabilities := AddFindings(purl, findings, inventory, order, components);
    FirstOccurrencesContents(inventory + FindingKeys(findings));
  }

  /** The packages describe the keys one by one, with dense ids. */
  ghost predicate Describe<K>(purl: K -> string, packages: seq<SpdxPackage<K>>, keys: seq<K>) {
    && |packages| == |keys|
    && forall n :: 0 <= n < |keys| ==>
         packages[n] == SpdxPackage(n, keys[n], purl(keys[n]))
  }

  lemma DescribeStep<K>(purl: K -> string, packages: seq<SpdxPackage<K>>, keys: seq<K>, k: K)
    requires Describe(purl, packages, FirstOccurrences(keys))
    ensures k in keys ==> FirstOccurrences(keys + [k]) == FirstOccurrences(keys)
    ensures k !in keys ==>
      Describe(purl, packages + [SpdxPackage(|packages|, k, purl(k))], FirstOccurrences(keys + [k]))
  {
    assert Front(keys + [k]) == keys;
  }

  /** SPDX packages: one for each distinct key, with dense ids in order of first occurrence. */
  method BuildSpdx<K(==)>(
      purl: K -> string, findings: seq<Finding<K>>, inventory: seq<K>)
    returns (packages: seq<SpdxPackage<K>>)
    ensures Describe(purl, packages, FirstOccurrences(inventory + FindingKeys(findings)))
  {
    var deps := inventory + FindingKeys(findings);
    var seen: set<K> := {};
    packages := [];
    for n := 0 to |deps|
      invariant seen == (set k | k in deps[..n])
      invariant Describe(purl, packages, FirstOccurrences(deps[..n]))
    {
      var k := deps[n];
      assert deps[..n + 1] == deps[..n] + [k];
      DescribeStep(purl, packages, deps[..n], k);
      if k in seen {
        continue;
      }
      seen := seen + {k};
      packages := packages + [SpdxPackage(|packages|, k, purl(k))];
    }
    assert deps[..|deps|] == deps;
  }

  /** SPDX ids are dense, no key is listed twice, and exactly the keys are listed. */
  lemma SpdxIdsDenseAndDistinct<K>(
    purl: K -> string, packages: seq<SpdxPackage<K>>, keys: seq<K>)
    requires Describe(purl, packages, FirstOccurrences(keys))
    ensures forall n :: 0 <= n < |packages| ==> packages[n].index == n && packages[n].locator == purl(packages[n].key)
    ensures forall m, n :: 0 <= m < n < |packages| ==> packages[m].key != packages[n].key
    ensures forall k :: k in keys <==> exists p :: p in packages && p.key == k
  {
    FirstOccurrencesContents(keys);
    var order := FirstOccurrences(keys);
    forall k | k in keys
      ensures exists p :: p in packages && p.key == k
    {
      var n :| 0 <= n < |order| && order[n] == k;
      assert packages[n] in packages;
    }
  }
}

/** Exporting findings and inventory as a bill of materials (app/depscan/sbom.py). */
module Sbom {
  import opened Purl

  datatype PackageKey = PackageKey(ecosystem: Ecosystem, name: Bytes, version: Bytes)

  function PurlOf(k: PackageKey): string {
    BuildPurl(k.ecosystem, k.name, k.version)
  }

  /** Two components of an ecosystem other than PyPI, with no empty namespace, have different
    references. */
  lemma RefsTellComponentsApart(k: PackageKey, l: PackageKey)
    requires k.ecosystem == l.ecosystem && !k.ecosystem.PyPI? && k != l
    requires HasNamespace(k.ecosystem, k.name) ==> Split(k.ecosystem, k.name).namespace != []
    requires HasNamespace(l.ecosystem, l.name) ==> Split(l.ecosystem, l.name).namespace != []
    ensures PurlOf(k) != PurlOf(l)
  {
    if PurlOf(k) == PurlOf(l) {
      PurlInjective(k.ecosystem, k.name, k.version, l.name, l.version);
    }
  }

  /** PyPI components share a reference exactly when their names differ only in case and in the
    choice of "_", "." and "-". */
  lemma PyPIRefsSharedExactly(name: Bytes, version: Bytes, name': Bytes, version': Bytes)
    ensures PurlOf(PackageKey(PyPI, name, version)) == PurlOf(PackageKey(PyPI, name', version'))
       <==> NormalizePyPI(name) == NormalizePyPI(name') && version == version'
  {
    PurlExactly(PyPI, name, version, name', version');
  }
}
