/**
 * The gallery screen: three state cells (`loading`, `imageUrl`, `dogBreed`),
 * the fetch that moves them from "loading" to a result, and what the screen
 * shows for each state.
 */
module Gallery {
  import opened Wrappers
  import opened Text
  import opened BreedLabel

  /**
   * What the request to `https://dog.ceo/api/breeds/image/random` delivers:
   * either `fetch` or `response.json()` throws, or a JSON body with a
   * `status` and a `message` (the image URL) arrives.
   */
  datatype Outcome = Thrown | Response(status: string, message: string)

  /** The screen's three state cells; `None` stands for `null`. */
  datatype Screen = Screen(loading: bool, imageUrl: Option<string>, dogBreed: Option<string>)
  {
    /**
     * Never a half-updated pair: either both cells are null, or the image URL
     * has a label and the breed cell holds exactly that label.
     */
    predicate Coherent()
    {
      match imageUrl
      case None => dogBreed.None?
      case Some(url) => Label(url).Some? && dogBreed == Label(url)
    }
  }

  /** The state on first render: loading, with neither image nor breed. */
  const Initial := Screen(true, None, None)

  /** The state every failure path leaves behind. */
  const Failed := Screen(false, None, None)

  /**
   * The state after a fetch has settled with `outcome`. A `"success"` body
   * whose URL has a label fills both cells; a URL without a `/` makes the
   * label extraction throw, which the catch turns into a failure like a
   * non-success status or a network error.
   */
  function Settled(outcome: Outcome): (s: Screen)
    ensures !s.loading && s.Coherent()
    ensures s.imageUrl.Some? <==> outcome.Response? && outcome.status == "success" && '/' in outcome.message
    ensures s.imageUrl.Some? ==> s.imageUrl.value == outcome.message
    ensures s.imageUrl.None? ==> s == Failed
  {
    match outcome
    case Thrown => Failed
    case Response(status, message) =>
      if status != "success" then Failed
      else
        match Label(message)
        case None => Failed
        case Some(name) => Screen(false, Some(message), Some(name))
  }

  /** The gallery screen's local state, updated in place by the fetch. */
  class GalleryScreen {
    var dogBreed: Option<string>
    var imageUrl: Option<string>
    var loading: bool

    /** The current values of the three cells. */
    function Current(): Screen
      reads this
    {
      Screen(loading, imageUrl, dogBreed)
    }

    /** Both cells null, or both set with the breed the label of the image URL. */
    predicate Coherent()
      reads this
    {
      Current().Coherent()
    }

    /** `useState` initial values: breed and image null, loading. */
    constructor ()
      ensures Current() == Initial && Coherent()
    {
      dogBreed := None;
      imageUrl := None;
      loading := true;
    }

    /**
     * `fetchDogImage` with the network replaced by `outcome`. It returns the
     * cells while the request is awaited: `loading` is true and the cells keep
     * the previous image and breed, while the screen shows only the loading
     * indicators (`WhileLoading`). The settled state depends on `outcome`
     * alone, whatever came before.
     */
    method FetchDogImage(outcome: Outcome) returns (pending: Screen)
      modifies this
      ensures pending == old(Current()).(loading := true)
      ensures old(Coherent()) ==> pending.Coherent()
      ensures Current() == Settled(outcome) && Coherent()
    {
      loading := true;
      pending := Current();
      match outcome {
        case Thrown =>
          imageUrl := None;
          dogBreed := None;
        case Response(status, message) =>
          if status == "success" {
            imageUrl := Some(message);
            var name := Label(message);
            if name.None? {
              // without '/' the slug is `undefined` and `.replace` on it throws; the catch clears both cells
              imageUrl := None;
              dogBreed := None;
            } else {
              dogBreed := Some(name.value);
            }
          } else {
            imageUrl := None;
            dogBreed := None;
          }
      }
      loading := false;
    }
  }

  /**
   * The screen mounts (its effect fetches once) and the user then presses
   * "Novo Cachorro" (a second fetch, after the first has settled). While the
   * second request is awaited the cells hold the first result with `loading`
   * true, so the screen shows only the loading indicators (`WhileLoading`);
   * afterwards only the second response counts.
   */
  method MountThenRefresh(first: Outcome, second: Outcome) returns (during: Screen, shown: Screen)
    ensures during == Settled(first).(loading := true) && during.Coherent()
    ensures shown == Settled(second)
  {
    var screen := new GalleryScreen();
    var mounting := screen.FetchDogImage(first);
    during := screen.FetchDogImage(second);
    shown := screen.Current();
  }

  /** `value || fallback` for a nullable string: null and `""` are falsy. */
  function OrElse(value: Option<string>, fallback: string): (r: string)
    ensures value.Some? && value.value != "" ==> r == value.value
    ensures value.None? || value.value == "" ==> r == fallback
  {
    if value.Some? && value.value != "" then value.value else fallback
  }

  /**
   * The breed paragraph: progress while loading; afterwards "Raça: " and the
   * breed when there is a non-empty one, "Raça: Desconhecida" otherwise.
   */
  function BreedText(s: Screen): (text: string)
    ensures s.loading ==> text == "Carregando Raça..."
    ensures !s.loading && s.dogBreed.Some? && s.dogBreed.value != "" ==> text == "Raça: " + s.dogBreed.value
    ensures !s.loading && (s.dogBreed.None? || s.dogBreed.value == "") ==> text == "Raça: Desconhecida"
  {
    if s.loading then "Carregando Raça..." else "Raça: " + OrElse(s.dogBreed, "Desconhecida")
  }

  /** What the image area shows. */
  datatype Panel = Spinner(caption: string) | Cover(uri: string) | Failure(caption: string)

  /**
   * The image area: the spinner exactly while loading, the image exactly when
   * not loading and the URL is non-empty, the failure text otherwise.
   */
  function ImagePanel(s: Screen): (p: Panel)
    ensures p.Spinner? <==> s.loading
    ensures p.Cover? <==> !s.loading && s.imageUrl.Some? && s.imageUrl.value != ""
    ensures p.Cover? ==> p.uri == s.imageUrl.value
    ensures p.Spinner? ==> p.caption == "Buscando a imagem..."
    ensures p.Failure? ==> p.caption == "Falha ao carregar a imagem."
  {
    if s.loading then Spinner("Buscando a imagem...")
    else if s.imageUrl.Some? && s.imageUrl.value != "" then Cover(s.imageUrl.value)
    else Failure("Falha ao carregar a imagem.")
  }

  /** The caption of the fetch button: "Aguarde" exactly while loading. */
  function ButtonLabel(s: Screen): (caption: string)
    ensures caption == "Aguarde" <==> s.loading
    ensures !s.loading ==> caption == "Novo Cachorro"
  {
    if s.loading then "Aguarde" else "Novo Cachorro"
  }

  /** While a fetch is awaited the screen shows only progress, whatever it held before. */
  lemma WhileLoading(s: Screen)
    requires s.loading
    ensures BreedText(s) == "Carregando Raça..."
    ensures ImagePanel(s) == Spinner("Buscando a imagem...")
    ensures ButtonLabel(s) == "Aguarde"
  {
  }

  /**
   * After a successful response for `.../<slug>/<file>` the image is shown and
   * the breed paragraph reads the formatted slug, or "Desconhecida" when the
   * slug is empty.
   */
  lemma AfterSuccess(dirs: seq<string>, slug: string, file: string)
    requires Separated(dirs + [slug, file], '/')
    ensures var url := Join(dirs + [slug, file], '/');
            var s := Settled(Response("success", url));
            s.imageUrl == Some(url) && s.dogBreed == Some(FormatBreed(slug)) &&
            ImagePanel(s) == Cover(url) &&
            BreedText(s) == "Raça: " + (if slug == "" then "Desconhecida" else FormatBreed(slug)) &&
            ButtonLabel(s) == "Novo Cachorro"
  {
    LabelOfPath(dirs, slug, file);
    var url := Join(dirs + [slug, file], '/');
    assert '/' in url;
  }

  /**
   * A thrown request, a status other than `"success"` or a URL without a `/`
   * all end in the same screen: no image, unknown breed, the failure text.
   */
  lemma AfterFailure(outcome: Outcome)
    requires !(outcome.Response? && outcome.status == "success" && '/' in outcome.message)
    ensures Settled(outcome) == Failed
    ensures BreedText(Settled(outcome)) == "Raça: Desconhecida"
    ensures ImagePanel(Settled(outcome)) == Failure("Falha ao carregar a imagem.")
    ensures ButtonLabel(Settled(outcome)) == "Novo Cachorro"
  {
  }
}
