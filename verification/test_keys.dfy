/** The browser's local storage, and the keys under which a passed module test
    and a passed final exam are recorded. The assessment page writes them and
    the course page reads the module-test key back. */
module TestKeys {

  type Storage = map<string, string>

  /** `test-${domain}-${level}-${moduleId}`. */
  function TestKey(domain: string, level: string, moduleId: string): (k: string)
    ensures |k| >= 5 && k[..5] == "test-"
  {
    "test-" + domain + "-" + level + "-" + moduleId
  }

  /** `final-${domain}-${level}`. */
  function FinalKey(domain: string, level: string): (k: string)
    ensures |k| >= 6 && k[..6] == "final-"
  {
    "final-" + domain + "-" + level
  }

  /** `localStorage.getItem(key) === "done"`. */
  predicate IsDone(storage: Storage, key: string) {
    key in storage && storage[key] == "done"
  }

  /** A module-test key never names the final exam, so passing a module test
      cannot mark the final exam done and the other way round. */
  lemma TestAndFinalKeysDiffer(domain: string, level: string, moduleId: string, d: string, l: string)
    ensures TestKey(domain, level, moduleId) != FinalKey(d, l)
  {
    var t, f := TestKey(domain, level, moduleId), FinalKey(d, l);
    assert t[0] != f[0];
  }
}
