/**
  The hint configuration presets. Each preset is the all-disabled baseline with a few
  fields switched on (Rust's `..DISABLED_CONFIG` record update). Only the fields that both
  copies of the program set are modelled; field names follow `ide::InlayHintsConfig`.
*/
module Config {
  import opened Basics

  datatype LifetimeElisionHints = Always | SkipTrivial | Never
  datatype ClosureReturnTypeHints = Always | WithBlock | Never
  datatype AdjustmentHints = Always | ReborrowOnly | Never

  datatype InlayHintsConfig = InlayHintsConfig(
    renderColons: bool,
    typeHints: bool,
    parameterHints: bool,
    chainingHints: bool,
    lifetimeElisionHints: LifetimeElisionHints,
    closureReturnTypeHints: ClosureReturnTypeHints,
    adjustmentHints: AdjustmentHints,
    bindingModeHints: bool,
    hideNamedConstructorHints: bool,
    hideClosureInitializationHints: bool,
    paramNamesForLifetimeElisionHints: bool,
    maxLength: Option<nat>,
    closingBraceHintsMinLines: Option<nat>)

  /** The source names of the fields on which two configurations differ. */
  function ChangedFields(a: InlayHintsConfig, b: InlayHintsConfig): set<string> {
    (if a.renderColons != b.renderColons then {"render_colons"} else {})
    + (if a.typeHints != b.typeHints then {"type_hints"} else {})
    + (if a.parameterHints != b.parameterHints then {"parameter_hints"} else {})
    + (if a.chainingHints != b.chainingHints then {"chaining_hints"} else {})
    + (if a.lifetimeElisionHints != b.lifetimeElisionHints then {"lifetime_elision_hints"} else {})
    + (if a.closureReturnTypeHints != b.closureReturnTypeHints then {"closure_return_type_hints"} else {})
    + (if a.adjustmentHints != b.adjustmentHints then {"adjustment_hints"} else {})
    + (if a.bindingModeHints != b.bindingModeHints then {"binding_mode_hints"} else {})
    + (if a.hideNamedConstructorHints != b.hideNamedConstructorHints then {"hide_named_constructor_hints"} else {})
    + (if a.hideClosureInitializationHints != b.hideClosureInitializationHints
       then {"hide_closure_initialization_hints"} else {})
    + (if a.paramNamesForLifetimeElisionHints != b.paramNamesForLifetimeElisionHints
       then {"param_names_for_lifetime_elision_hints"} else {})
    + (if a.maxLength != b.maxLength then {"max_length"} else {})
    + (if a.closingBraceHintsMinLines != b.closingBraceHintsMinLines then {"closing_brace_hints_min_lines"} else {})
  }

  /** `DISABLED_CONFIG`: every kind of hint off. */
  function DisabledConfig(): InlayHintsConfig {
    InlayHintsConfig(
      renderColons := false,
      typeHints := false,
      parameterHints := false,
      chainingHints := false,
      lifetimeElisionHints := LifetimeElisionHints.Never,
      closureReturnTypeHints := ClosureReturnTypeHints.Never,
      adjustmentHints := AdjustmentHints.Never,
      bindingModeHints := false,
      hideNamedConstructorHints := false,
      hideClosureInitializationHints := false,
      paramNamesForLifetimeElisionHints := false,
      maxLength := None,
      closingBraceHintsMinLines := None)
  }

  /** `TYPE_HINTS_CONFIG` */
  function TypeHintsConfig(): InlayHintsConfig {
    DisabledConfig().(
      typeHints := true,
      hideNamedConstructorHints := true,
      hideClosureInitializationHints := true,
      closureReturnTypeHints := ClosureReturnTypeHints.WithBlock)
  }

  /** `CHAINING_HINTS_CONFIG` */
  function ChainingHintsConfig(): InlayHintsConfig {
    DisabledConfig().(chainingHints := true)
  }

  /** `PARAMETER_HINTS_CONFIG` */
  function ParameterHintsConfig(): InlayHintsConfig {
    DisabledConfig().(parameterHints := true)
  }

  /** `BINDING_MODE_HINTS_CONFIG` */
  function BindingModeHintsConfig(): InlayHintsConfig {
    DisabledConfig().(bindingModeHints := true)
  }

  /** `CLOSING_BRACE_HINTS_CONFIG`: closing-brace hints for blocks of at least two lines. */
  function ClosingBraceHintsConfig(): InlayHintsConfig {
    DisabledConfig().(closingBraceHintsMinLines := Some(2))
  }

  /** `LIFETIME_HINTS_CONFIG` */
  function LifetimeHintsConfig(): InlayHintsConfig {
    DisabledConfig().(lifetimeElisionHints := LifetimeElisionHints.SkipTrivial)
  }

  /** Each preset is the baseline with exactly the fields it names changed, to the values it names. */
  lemma PresetsOverBaseline()
    ensures ChangedFields(DisabledConfig(), TypeHintsConfig())
            == {"type_hints", "hide_named_constructor_hints", "hide_closure_initialization_hints",
                "closure_return_type_hints"}
    ensures TypeHintsConfig().typeHints && TypeHintsConfig().hideNamedConstructorHints
            && TypeHintsConfig().hideClosureInitializationHints
            && TypeHintsConfig().closureReturnTypeHints == ClosureReturnTypeHints.WithBlock
    ensures ChangedFields(DisabledConfig(), ChainingHintsConfig()) == {"chaining_hints"}
            && ChainingHintsConfig().chainingHints
    ensures ChangedFields(DisabledConfig(), ParameterHintsConfig()) == {"parameter_hints"}
            && ParameterHintsConfig().parameterHints
    ensures ChangedFields(DisabledConfig(), BindingModeHintsConfig()) == {"binding_mode_hints"}
            && BindingModeHintsConfig().bindingModeHints
    ensures ChangedFields(DisabledConfig(), ClosingBraceHintsConfig()) == {"closing_brace_hints_min_lines"}
            && ClosingBraceHintsConfig().closingBraceHintsMinLines == Some(2)
    ensures ChangedFields(DisabledConfig(), LifetimeHintsConfig()) == {"lifetime_elision_hints"}
            && LifetimeHintsConfig().lifetimeElisionHints == LifetimeElisionHints.SkipTrivial
  {
  }

  /** Two configurations are equal exactly when they differ on no field, so a preset is fixed by its changed fields and their values. */
  lemma NoChangedFieldsMeansEqual(a: InlayHintsConfig, b: InlayHintsConfig)
    ensures ChangedFields(a, b) == {} <==> a == b
  {
  }
}
