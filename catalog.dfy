/**
 * The fixed table of models the downloader accepts (SUPPORTED_MODELS in
 * download_model.py): a logical name maps to its Hugging Face identifier.
 * argparse limits `--model` to exactly the keys of this table.
 */
module ModelCatalog {

  const SupportedModels: map<string, string> := map[
    "qwen2.5-vl-3b" := "Qwen/Qwen2.5-VL-3B-Instruct",
    "qwen2.5-vl-7b" := "Qwen/Qwen2.5-VL-7B-Instruct",
    "qwen2.5-vl-72b" := "Qwen/Qwen2.5-VL-72B-Instruct"
  ]

  /** The `choices` constraint argparse puts on `--model`. */
  predicate IsChoice(name: string) {
    name in SupportedModels
  }

  /**
   * `SUPPORTED_MODELS[args.model]`. Every accepted choice resolves, and the
   * identifier it resolves to belongs to no other choice.
   */
  function ModelId(name: string): (id: string)
    requires IsChoice(name)
    ensures id in SupportedModels.Values
    ensures forall other :: IsChoice(other) && SupportedModels[other] == id ==> other == name
  {
    SupportedModels[name]
  }

  /** The accepted choices are exactly the three table keys, each with its fixed identifier. */
  lemma ChoicesAreTheTable(name: string)
    ensures IsChoice(name) <==> name == "qwen2.5-vl-3b" || name == "qwen2.5-vl-7b" || name == "qwen2.5-vl-72b"
    ensures name == "qwen2.5-vl-3b" ==> ModelId(name) == "Qwen/Qwen2.5-VL-3B-Instruct"
    ensures name == "qwen2.5-vl-7b" ==> ModelId(name) == "Qwen/Qwen2.5-VL-7B-Instruct"
    ensures name == "qwen2.5-vl-72b" ==> ModelId(name) == "Qwen/Qwen2.5-VL-72B-Instruct"
  {
  }
}
