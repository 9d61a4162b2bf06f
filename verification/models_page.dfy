/**
 * The model-recommendation page (app/models/page.tsx): a two-question
 * questionnaire ("is the dataset labeled?", "what type is the target?") that
 * selects one of three fixed three-entry model catalogs, gated on the
 * dataset-presence check.
 */
module ModelsPage {
  import opened Wrappers
  import DatasetsCheck

  datatype Step = Questionnaire | Models

  datatype TargetType = Categorical | Continuous

  /** The three keys of the catalog table. */
  datatype Category = Unsupervised | Classification | Regression

  /** A catalog entry; icon and colour classes are presentational and not kept. */
  datatype ModelDescriptor = ModelDescriptor(name: string, description: string, tag: string, path: string)

  const UnsupervisedModels: seq<ModelDescriptor> := [
    ModelDescriptor(
      "K-Means Clustering",
      "Unsupervised algorithm for grouping data into clusters. Perfect for customer segmentation, anomaly detection, and pattern discovery.",
      "Clustering",
      "/models/configure/kmeans"),
    ModelDescriptor(
      "PCA",
      "Principal Component Analysis reduces dimensionality while preserving variance. Ideal for visualization and preprocessing of high-dimensional data.",
      "Dimensionality Reduction",
      "/models/configure/pca"),
    ModelDescriptor(
      "Autoencoder",
      "Neural network used for feature learning and noise reduction. Useful for anomaly detection and generating compressed data representations.",
      "Deep Learning",
      "/models/configure/autoencoder")
  ]

  const ClassificationModels: seq<ModelDescriptor> := [
    ModelDescriptor(
      "Random Forest",
      "Versatile ensemble algorithm that builds multiple decision trees. Excellent for classification with high accuracy and feature importance.",
      "Classification",
      "/models/configure/random-forest"),
    ModelDescriptor(
      "SVM",
      "Support Vector Machines excel at classification tasks with clear margins of separation. Powerful for high-dimensional spaces and text categorization.",
      "Classification",
      "/models/configure/svm"),
    ModelDescriptor(
      "Neural Network",
      "Deep learning model for complex classification problems. Suited for image classification, sentiment analysis, and multi-class problems.",
      "Deep Learning",
      "/models/configure/neural-network-classifier")
  ]

  const RegressionModels: seq<ModelDescriptor> := [
    ModelDescriptor(
      "Linear Regression",
      "Predicts continuous values with linear relationships between features. Ideal for sales forecasting, trend analysis and simple predictions.",
      "Regression",
      "/models/configure/linear-regression"),
    ModelDescriptor(
      "Gradient Boosting",
      "Advanced ensemble technique that builds models sequentially. Provides state-of-the-art accuracy for structured data problems.",
      "Regression",
      "/models/configure/gradient-boosting"),
    ModelDescriptor(
      "Neural Network",
      "Deep learning model for complex regression tasks. Well-suited for datasets with non-linear relationships and multiple features.",
      "Deep Learning",
      "/models/configure/neural-network-regressor")
  ]

  /** The `modelsByType` table. */
  function ModelsByType(c: Category): (r: seq<ModelDescriptor>)
    ensures |r| == 3
  {
    match c
    case Unsupervised => UnsupervisedModels
    case Classification => ClassificationModels
    case Regression => RegressionModels
  }

  /** JavaScript truthiness of `isLabeled`: `null` and `false` are both falsy. */
  predicate Truthy(isLabeled: Option<bool>) {
    isLabeled == Some(true)
  }

  /**
   * `getModelsToDisplay`: an unanswered or negative first answer selects the
   * unsupervised list whatever the target type; otherwise the target type
   * picks the list, and a missing target type gives the empty list.
   */
  function ModelsToDisplay(isLabeled: Option<bool>, targetType: Option<TargetType>): (r: seq<ModelDescriptor>)
    ensures !Truthy(isLabeled) ==> r == ModelsByType(Unsupervised)
    ensures Truthy(isLabeled) && targetType == Some(Categorical) ==> r == ModelsByType(Classification)
    ensures Truthy(isLabeled) && targetType == Some(Continuous) ==> r == ModelsByType(Regression)
    ensures Truthy(isLabeled) && targetType == None ==> r == []
  {
    if !Truthy(isLabeled) then UnsupervisedModels
    else match targetType
      case Some(Categorical) => ClassificationModels
      case Some(Continuous) => RegressionModels
      case None => []
  }

  /** The `disabled` expression of the "View Recommended Models" button. */
  predicate ContinueDisabled(isLabeled: Option<bool>, targetType: Option<TargetType>) {
    isLabeled == None || (Truthy(isLabeled) && targetType == None)
  }

  /** The category named by the heading, subtitle and filter badge of the models step. */
  function HeadingCategory(isLabeled: Option<bool>, targetType: Option<TargetType>): (c: Category)
    ensures c == Unsupervised <==> !Truthy(isLabeled)
    ensures c == Classification <==> Truthy(isLabeled) && targetType == Some(Categorical)
  {
    if !Truthy(isLabeled) then Unsupervised
    else if targetType == Some(Categorical) then Classification
    else Regression
  }

  function HeadingTitle(c: Category): string {
    match c
    case Unsupervised => "Unsupervised Learning Models"
    case Classification => "Classification Models"
    case Regression => "Regression Models"
  }

  function BadgeLabel(c: Category): string {
    match c
    case Unsupervised => "Unsupervised Learning"
    case Classification => "Classification"
    case Regression => "Regression"
  }

  /** The three headings, and the three badges, are pairwise different: each names one catalog. */
  lemma HeadingTextsDistinct(c1: Category, c2: Category)
    requires c1 != c2
    ensures HeadingTitle(c1) != HeadingTitle(c2)
    ensures BadgeLabel(c1) != BadgeLabel(c2)
  {
  }

  /** Continue is enabled exactly when the answers are complete, and then the lookup has three entries. */
  lemma ContinueEnabledGivesFullList(isLabeled: Option<bool>, targetType: Option<TargetType>)
    ensures !ContinueDisabled(isLabeled, targetType) <==>
              (isLabeled == Some(false) || (isLabeled == Some(true) && targetType != None))
    ensures !ContinueDisabled(isLabeled, targetType) ==> |ModelsToDisplay(isLabeled, targetType)| == 3
  {
    if isLabeled.Some? && isLabeled.value {
      match targetType
      case Some(Categorical) =>
      case Some(Continuous) =>
      case None =>
    }
  }

  /**
   * The heading and the list looked up disagree in exactly one answer state,
   * labeled with no target type, which is the one the continue guard excludes.
   */
  lemma HeadingAgreesWithList(isLabeled: Option<bool>, targetType: Option<TargetType>)
    ensures (ModelsToDisplay(isLabeled, targetType) != ModelsByType(HeadingCategory(isLabeled, targetType)))
              <==> (Truthy(isLabeled) && targetType == None)
    ensures !ContinueDisabled(isLabeled, targetType) ==>
              ModelsToDisplay(isLabeled, targetType) == ModelsByType(HeadingCategory(isLabeled, targetType))
  {
  }

  /** The nine configure routes are distinct, so the three lists share no entry. */
  lemma CatalogEntriesDistinct(c1: Category, c2: Category, i: nat, j: nat)
    requires i < 3 && j < 3
    requires c1 != c2 || i != j
    ensures ModelsByType(c1)[i].path != ModelsByType(c2)[j].path
  {
  }

  /** What the page renders, reduced to the facts that depend on state. */
  datatype PageView =
    | LoadingSkeleton
    | NoDatasets
    | QuestionnaireView(showTargetQuestion: bool, continueDisabled: bool)
    | ModelsView(title: string, badge: string, models: seq<ModelDescriptor>, countBadge: nat)

  /** The component state of the models page and its event handlers. */
  class Page {
    var loading: bool
    var hasDatasets: bool
    var step: Step
    var isLabeled: Option<bool>
    var targetType: Option<TargetType>

    /** The models step is only ever entered through an enabled continue button. */
    ghost predicate Valid()
      reads this
    {
      step == Models ==> !ContinueDisabled(isLabeled, targetType)
    }

    /** The initial `useState` values. */
    constructor ()
      ensures Valid()
      ensures loading && !hasDatasets && step == Questionnaire
      ensures isLabeled == None && targetType == None
    {
      loading := true;
      hasDatasets := false;
      step := Questionnaire;
      isLabeled := None;
      targetType := None;
    }

    /**
     * The mount effect: `response` is the decoded answer of the presence check,
     * or None when the request or its JSON decoding threw. An error body has no
     * `hasDatasets` field, which reads as falsy.
     */
    method DatasetsChecked(response: Option<DatasetsCheck.CheckResponse>)
      requires Valid()
      modifies this`loading, this`hasDatasets
      ensures Valid()
      ensures !loading
      ensures hasDatasets <==> response.Some? && response.value.CheckOk? && response.value.hasDatasets
    {
      match response {
      case Some(CheckOk(has, _)) =>
        hasDatasets := has;
      case Some(CheckFailed(_, _)) =>
        hasDatasets := false;
      case None =>
        hasDatasets := false;
      }
      loading := false;
    }

    /** `resetSelections`: clears both answers and returns to the questionnaire. */
    method ResetSelections()
      modifies this`isLabeled, this`targetType, this`step
      ensures Valid()
      ensures isLabeled == None && targetType == None && step == Questionnaire
      ensures ContinueDisabled(isLabeled, targetType)
    {
      isLabeled := None;
      targetType := None;
      step := Questionnaire;
    }

    /** The "Yes, it's labeled" / "No, it's unlabeled" buttons: only the first answer changes. */
    method AnswerLabeled(labeled: bool)
      requires Valid() && step == Questionnaire
      modifies this`isLabeled
      ensures Valid()
      ensures isLabeled == Some(labeled) && targetType == old(targetType) && step == old(step)
      ensures !labeled ==> ModelsToDisplay(isLabeled, targetType) == ModelsByType(Unsupervised)
    {
      isLabeled := Some(labeled);
    }

    /** The "Categorical" / "Continuous" buttons, shown only once the dataset is labeled. */
    method AnswerTargetType(t: TargetType)
      requires Valid() && step == Questionnaire && Truthy(isLabeled)
      modifies this`targetType
      ensures Valid()
      ensures targetType == Some(t) && isLabeled == old(isLabeled) && step == old(step)
      ensures !ContinueDisabled(isLabeled, targetType)
    {
      targetType := Some(t);
    }

    /** "View Recommended Models": a disabled button does not fire. */
    method Continue()
      requires Valid() && step == Questionnaire
      modifies this`step
      ensures Valid()
      ensures step == (if ContinueDisabled(isLabeled, targetType) then Questionnaire else Models)
      ensures step == Models ==> |ModelsToDisplay(isLabeled, targetType)| == 3
    {
      if !ContinueDisabled(isLabeled, targetType) {
        step := Models;
        ContinueEnabledGivesFullList(isLabeled, targetType);
      }
    }

    /** "Change dataset type": back to the questionnaire, answers kept. */
    method ChangeDatasetType()
      requires Valid() && step == Models
      modifies this`step
      ensures Valid()
      ensures step == Questionnaire && isLabeled == old(isLabeled) && targetType == old(targetType)
    {
      step := Questionnaire;
    }

    /**
     * The page's render branches. In the models step the heading, the
     * badge and the "N models available" count all agree with the list shown.
     */
    function View(): (v: PageView)
      reads this
      requires Valid()
      ensures loading ==> v == LoadingSkeleton
      ensures !loading && !hasDatasets ==> v == NoDatasets
      ensures !loading && hasDatasets && step == Questionnaire ==>
                v.QuestionnaireView? && v.showTargetQuestion == Truthy(isLabeled)
                && v.continueDisabled == ContinueDisabled(isLabeled, targetType)
      ensures !loading && hasDatasets && step == Models ==>
                && v.ModelsView?
                && v.models == ModelsToDisplay(isLabeled, targetType)
                && v.models == ModelsByType(HeadingCategory(isLabeled, targetType))
                && v.title == HeadingTitle(HeadingCategory(isLabeled, targetType))
                && v.badge == BadgeLabel(HeadingCategory(isLabeled, targetType))
                && |v.models| == v.countBadge == 3
    {
      if loading then LoadingSkeleton
      else if !hasDatasets then NoDatasets
      else if step == Questionnaire then
        QuestionnaireView(Truthy(isLabeled), ContinueDisabled(isLabeled, targetType))
      else
        var c := HeadingCategory(isLabeled, targetType);
        var models := ModelsToDisplay(isLabeled, targetType);
        HeadingAgreesWithList(isLabeled, targetType);
        ModelsView(HeadingTitle(c), BadgeLabel(c), models, |models|)
    }
  }
}
