/** The examples `test_simplify_fqn_trait_paths` asserts before the script
    runs. Each goes through the general `SimplifyPlain` of the simplifier.
    The strings are written as concatenations of pieces, cut at the ` as `
    and at the first `>` after it, and a long type or trait path is cut
    once more: the verifier compares short literals far more cheaply than
    long ones. */
module TraitPathExamples {
  import opened Strings
  import opened TraitPaths

  /** `<T as failure::as_fail::AsFail>::as_fail` becomes `<T as AsFail>::as_fail`. */
  lemma ExampleAsFail()
    ensures Simplified("<T" + " as " + ("failure::as_fail::AsFail" + ">" + "::as_fail"))
         == "<T" + " as " + ("AsFail" + ">" + "::as_fail")
  {
    var lhs, rest := "<T", ["::as_fail"];
    var mods := ["failure", "as_fail", "AsFail"];
    FirstCharAbsent(lhs, AsSep);
    SimplifyPlain(lhs, mods, rest);
    AsFailParts();
    OneTail("failure::as_fail::AsFail", "::as_fail");
    OneTail("AsFail", "::as_fail");
  }

  lemma AsFailParts()
    ensures Join(["failure", "as_fail", "AsFail"], "::") == "failure::as_fail::AsFail"
  {
  }

  /** `<futures::lock::TryLock<T> as core::ops::deref::Deref>::deref`
      becomes `<futures::lock::TryLock<T> as Deref>::deref`. */
  lemma ExampleDeref()
    ensures Simplified("<futures::lock::TryLock<T>" + " as " + ("core::ops::deref::Deref" + ">" + "::deref"))
         == "<futures::lock::TryLock<T>" + " as " + ("Deref" + ">" + "::deref")
  {
    var lhs, rest := "<futures::lock::TryLock<T>", ["::deref"];
    var mods := ["core", "ops", "deref", "Deref"];
    DerefType();
    SimplifyPlain(lhs, mods, rest);
    DerefParts();
    OneTail("core::ops::deref::Deref", "::deref");
    OneTail("Deref", "::deref");
  }

  lemma DerefType()
    ensures EndsAtSeparator("<futures::lock::TryLock<T>", AsSep)
  {
    FirstCharAbsent("<futures::lock::TryLock<T>", AsSep);
  }

  lemma DerefParts()
    ensures Join(["core", "ops", "deref", "Deref"], "::") == "core::ops::deref::Deref"
  {
  }

  /** A leading `::`, as in `::protobuf::Message`, reduces to `Message`:
      `<network::proto::state_synchronizer::RequestChunk as
      ::protobuf::Message>::default_instance` becomes
      `<network::proto::state_synchronizer::RequestChunk as
      Message>::default_instance`. */
  lemma ExampleLeadingColons()
    ensures Simplified("<network::proto::" + "state_synchronizer::RequestChunk" + " as "
                       + ("::protobuf::Message" + ">" + "::default_instance"))
         == "<network::proto::" + "state_synchronizer::RequestChunk" + " as "
            + ("Message" + ">" + "::default_instance")
  {
    var lhs, rest := "<network::proto::" + "state_synchronizer::RequestChunk", ["::default_instance"];
    var mods := ["", "protobuf", "Message"];
    LeadingColonsType();
    SimplifyPlain(lhs, mods, rest);
    LeadingColonsParts();
    OneTail("::protobuf::Message", "::default_instance");
    OneTail("Message", "::default_instance");
  }

  lemma LeadingColonsType()
    ensures EndsAtSeparator("<network::proto::" + "state_synchronizer::RequestChunk", AsSep)
  {
    FirstCharAbsent("<network::proto::" + "state_synchronizer::RequestChunk", AsSep);
  }

  lemma LeadingColonsParts()
    ensures Join(["", "protobuf", "Message"], "::") == "::protobuf::Message"
  {
    JoinCons("", ["protobuf", "Message"], "::");
    JoinCons("protobuf", ["Message"], "::");
  }

  /** A generic trait keeps its parameters, and the type before the ` as `
      keeps its own space: `<&mut std::collections::hash::table::RawTable<K,V>
      as std::collections::hash::table::Put<K,V>>::borrow_table_mut` becomes
      `<&mut std::collections::hash::table::RawTable<K,V> as
      Put<K,V>>::borrow_table_mut`. */
  lemma ExampleGenericTrait()
    ensures Simplified("<&mut" + " " + ("std::collections::" + "hash::table::RawTable<K,V>") + " as "
                       + (("std::" + "collections::" + "hash::" + "table::" + "Put<K,V") + ">>" + "::borrow_table_mut"))
         == "<&mut" + " " + ("std::collections::" + "hash::table::RawTable<K,V>") + " as "
            + ("Put<K,V" + ">>" + "::borrow_table_mut")
  {
    var lhs := "<&mut" + " " + ("std::collections::" + "hash::table::RawTable<K,V>");
    var mods := ["std", "collections", "hash", "table", "Put<K,V"];
    var rest := ["", "::borrow_table_mut"];
    GenericTraitType();
    SimplifyPlain(lhs, mods, rest);
    GenericTraitParts();
    EmptyThenTail("std::" + "collections::" + "hash::" + "table::" + "Put<K,V", "::borrow_table_mut");
    EmptyThenTail("Put<K,V", "::borrow_table_mut");
  }

  lemma GenericTraitType()
    ensures EndsAtSeparator("<&mut" + " " + ("std::collections::" + "hash::table::RawTable<K,V>"), AsSep)
  {
    LoneFirstCharEnds("<&mut", "std::collections::" + "hash::table::RawTable<K,V>", AsSep);
    assert [AsSep[0]] == " ";
  }

  lemma GenericTraitParts()
    ensures Join(["std", "collections", "hash", "table", "Put<K,V"], "::")
         == "std::" + "collections::" + "hash::" + "table::" + "Put<K,V"
  {
  }

  lemma OneTail(x: string, y: string)
    ensures Join([x] + [y], ">") == x + ">" + y
  {
    JoinCons(x, [y], ">");
  }

  /** An empty piece between two `>`. */
  lemma EmptyThenTail(x: string, z: string)
    ensures Join([x] + ["", z], ">") == x + ">>" + z
  {
    JoinCons(x, ["", z], ">");
    JoinCons("", [z], ">");
    Assoc(x + ">", ">", z);
    Assoc(x, ">", ">");
  }
}
