/**
 Concrete runs of the hook as the `Greeting` component uses it: key "name",
 default "", string values. `Quote` and `Unquote` stand in for
 `JSON.stringify` and `JSON.parse` on strings without quotes or escapes.
 Each run starts with the commit that follows the mount itself.
 */
module Scenarios {
  import opened Storage
  import opened LocalStorageState
  import opened Lifecycle

  /** `JSON.stringify` of a string: wrapped in double quotes. */
  function Quote(s: string): (r: string)
    ensures |r| == |s| + 2 && r[0] == '"' && r[|r| - 1] == '"' && r[1..|r| - 1] == s
  {
    "\"" + s + "\""
  }

  /** `JSON.parse` of a quoted string: the text between the quotes. */
  function Unquote(s: string): (r: string)
    ensures |s| >= 2 ==> |r| == |s| - 2 && r == s[1..|s| - 1]
  {
    if |s| >= 2 then s[1..|s| - 1] else s
  }

  /** The stand-ins are inverse on strings, as `JSON.parse(JSON.stringify(s))` is. */
  lemma QuoteRoundTrip(s: string)
    ensures Unquote(Quote(s)) == s
    ensures Quote(s) != ""
  {
  }

  /** A value persisted by one mount is recovered by the next mount at the same
      key. The mount's own commit writes the initial "" first. */
  lemma PersistsAcrossMounts()
    ensures var s := Mount(map[], "name", Literal(""), Unquote);
            var s1 := Run(s, [Commit(Quote)]);
            var r := Run(s1, [SetValue("Kent"), Commit(Quote)]);
            && s.binding.value == ""
            && s1.store == map["name" := "\"\""]
            && r.store == map["name" := "\"Kent\""]
            && Mount(r.store, "name", Literal(""), Unquote).binding.value == "Kent"
  {
    var s := Mount(map[], "name", Literal(""), Unquote);
    assert Run(s, [Commit(Quote)]) == Cycle(s, Quote);
    var s1 := Cycle(s, Quote);
    assert MigrateKey(s.store, s.binding).store == map[];
    assert Quote("") == "\"\"";
    assert s1.store == map["name" := "\"\""];
    var events := [SetValue("Kent"), Commit(Quote)];
    var s2 := Step(s1, SetValue("Kent"));
    assert events[1..] == [Commit(Quote)];
    assert Run(s1, events) == Run(s2, [Commit(Quote)]) == Cycle(s2, Quote);
    assert MigrateKey(s2.store, s2.binding).store == s1.store;
    assert Quote("Kent") == "\"Kent\"";
    var r := Run(s1, events);
    assert r.store == map["name" := "\"Kent\""];
    assert Unquote("\"Kent\"") == "Kent";
  }

  /** Changing the key and the value before one commit moves the entry: the new
      key holds the new value and the old key is gone. */
  lemma KeyAndValueChangeInOneCycle()
    ensures var s := Mount(map["name" := "\"Kent\""], "name", Literal(""), Unquote);
            var s1 := Run(s, [Commit(Quote)]);
            var r := Run(s1, [ChangeKey("alias"), SetValue("K"), Commit(Quote)]);
            && s.binding.value == "Kent"
            && s1.store == map["name" := "\"Kent\""]
            && r.store == map["alias" := "\"K\""]
  {
    var s := Mount(map["name" := "\"Kent\""], "name", Literal(""), Unquote);
    assert Unquote("\"Kent\"") == "Kent";
    assert Run(s, [Commit(Quote)]) == Cycle(s, Quote);
    var s1 := Cycle(s, Quote);
    assert Quote("Kent") == "\"Kent\"";
    assert s1.store == map["name" := "\"Kent\""];
    var events := [ChangeKey("alias"), SetValue("K"), Commit(Quote)];
    var s2 := Step(s1, ChangeKey("alias"));
    var s3 := Step(s2, SetValue("K"));
    assert events[1..] == [SetValue("K"), Commit(Quote)];
    assert events[1..][1..] == [Commit(Quote)];
    assert Run(s1, events) == Run(s2, events[1..]) == Run(s3, [Commit(Quote)]) == Cycle(s3, Quote);
    assert "name" != "alias";
    assert MigrateKey(s3.store, s3.binding).store == map[];
    assert Quote("K") == "\"K\"";
    var r := Run(s1, events);
    assert r.store == map["alias" := "\"K\""];
  }
}
