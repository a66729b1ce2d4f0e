/**
 `get_category` and `get_all_categories`: an endpoint's folder path, lower-cased,
 is matched against a fixed, ordered list of (category, keywords) rules; the
 first category with a keyword occurring in the path wins, and `other` catches
 the rest.
 */
module Category {
  import opened Chars

  const Other: string := "other"

  /** The rules in priority order (Python keeps dict literals in insertion
      order). The non-ASCII keywords are 豆包 (Doubao), 可灵 (Kling) and
      通义 (Tongyi). */
  const Rules: seq<(string, seq<string>)> := [
    ("openai", ["openai", "gpt", "dall-e", "whisper", "tts", "sora"]),
    ("claude", ["claude", "anthropic"]),
    ("gemini", ["gemini", "google"]),
    ("suno", ["suno"]),
    ("midjourney", ["midjourney", "mj"]),
    ("doubao", ["doubao", "\U{8C46}\U{5305}"]),
    ("kling", ["kling", "\U{53EF}\U{7075}"]),
    ("runway", ["runway"]),
    ("minimax", ["minimax"]),
    ("ideogram", ["ideogram"]),
    ("flux", ["flux"]),
    ("higgsfield", ["higgsfield"]),
    ("qwen", ["qwen", "\U{901A}\U{4E49}", "tongyi"]),
    ("grok", ["grok"])
  ]

  /** Rule `i` has a keyword occurring in `lowered`. */
  predicate RuleMatches(i: int, lowered: string)
    requires 0 <= i < |Rules|
  {
    exists k :: k in Rules[i].1 && Contains(lowered, k)
  }

  /** `get_all_categories()`. */
  function AllCategories(): (r: seq<string>)
    ensures |r| == |Rules| + 1
    ensures forall i :: 0 <= i < |Rules| ==> r[i] == Rules[i].0
    ensures r[|Rules|] == Other
    ensures forall i, j :: 0 <= i < j < |r| ==> r[i] != r[j]
  {
    [
      "openai", "claude", "gemini", "suno", "midjourney", "doubao",
      "kling", "runway", "minimax", "ideogram", "flux", "higgsfield",
      "qwen", "grok", "other"
    ]
  }

  /** The first rule at or after `from` that matches, as an index. */
  function FirstMatch(lowered: string, from: nat): (r: nat)
    requires from <= |Rules|
    ensures from <= r <= |Rules|
    ensures r < |Rules| ==> RuleMatches(r, lowered)
    ensures forall j :: from <= j < r ==> !RuleMatches(j, lowered)
    decreases |Rules| - from
  {
    if from == |Rules| then from
    else if exists k | k in Rules[from].1 :: Contains(lowered, k) then from
    else FirstMatch(lowered, from + 1)
  }

  /** `get_category(folder_path)`. */
  function Classify(t: CharTable, folderPath: string): (r: string)
    ensures r in AllCategories()
    ensures folderPath == "" ==> r == Other
  {
    if folderPath == "" then Other
    else
      var i := FirstMatch(Lower(t, folderPath), 0);
      if i == |Rules| then Other else Rules[i].0
  }

  /** The position of a category in the priority order; `other` comes last. */
  function Rank(category: string): (r: nat)
    ensures r <= |Rules|
  {
    RankFrom(category, 0)
  }

  function RankFrom(category: string, from: nat): (r: nat)
    requires from <= |Rules|
    ensures from <= r <= |Rules|
    ensures r < |Rules| ==> Rules[r].0 == category
    ensures forall j :: from <= j < r ==> Rules[j].0 != category
    decreases |Rules| - from
  {
    if from == |Rules| || Rules[from].0 == category then from
    else RankFrom(category, from + 1)
  }

  lemma RankOfRule(i: nat)
    requires i < |Rules|
    ensures Rank(Rules[i].0) == i
  {
    var all := AllCategories();
    var r := Rank(Rules[i].0);
    if r < i {
      assert all[r] == all[i];
    }
  }

  /** The classifier returns the first category, in rule order, with a keyword
      in the lower-cased path, and `other` exactly when no rule matches. */
  lemma ClassifyIsFirstMatch(t: CharTable, folderPath: string)
    ensures var r := Classify(t, folderPath);
            var lowered := Lower(t, folderPath);
            && (r == Other <==> folderPath == "" || forall i :: 0 <= i < |Rules| ==> !RuleMatches(i, lowered))
            && (r != Other ==> var i := Rank(r);
                              i < |Rules| && Rules[i].0 == r && RuleMatches(i, lowered)
                              && forall j :: 0 <= j < i ==> !RuleMatches(j, lowered))
  {
    var r := Classify(t, folderPath);
    if folderPath != "" {
      var i := FirstMatch(Lower(t, folderPath), 0);
      if i < |Rules| {
        RankOfRule(i);
        assert AllCategories()[i] != AllCategories()[|Rules|];
      }
    }
  }

  /** Rule order breaks ties: a path naming any OpenAI keyword is filed under
      `openai`, even when it also names Claude. */
  lemma OpenAIBeatsClaude(t: CharTable, folderPath: string, k: string)
    requires k in Rules[0].1
    requires Contains(Lower(t, folderPath), k)
    ensures Classify(t, folderPath) == "openai"
  {
  }

  /** Below the earlier rules, a later rule still applies: a path with a Claude
      keyword and no OpenAI keyword is filed under `claude`. */
  lemma ClaudeWithoutOpenAI(t: CharTable, folderPath: string, k: string)
    requires k in Rules[1].1
    requires Contains(Lower(t, folderPath), k)
    requires !RuleMatches(0, Lower(t, folderPath))
    ensures Classify(t, folderPath) == "claude"
  {
    assert folderPath != "";
    assert RuleMatches(1, Lower(t, folderPath));
  }

  /** Extending a folder path never moves an endpoint to a later category:
      whatever matched the shorter path still matches the longer one. */
  lemma ClassifyMonotone(t: CharTable, path: string, rest: string)
    ensures Rank(Classify(t, path + rest)) <= Rank(Classify(t, path))
  {
    ClassifyIsFirstMatch(t, path);
    ClassifyIsFirstMatch(t, path + rest);
    var r := Classify(t, path);
    if path != "" && r != Other {
      var i := Rank(r);
      LowerAppend(t, path, rest);
      var k :| k in Rules[i].1 && Contains(Lower(t, path), k);
      ContainsPrefix(Lower(t, path), Lower(t, rest), k);
      assert RuleMatches(i, Lower(t, path + rest));
      var r' := Classify(t, path + rest);
      if r' == Other {
        assert false;
      }
    } else {
      assert Rank(Other) == |Rules| by {
        var all := AllCategories();
        forall j | 0 <= j < |Rules|
          ensures Rules[j].0 != Other
        {
          assert all[j] != all[|Rules|];
        }
      }
    }
  }
}
