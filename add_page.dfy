/**
 * The page editor (frontend/src/pages/AddPage.jsx): field edits, the image
 * picker's checks, the validator, and the submit sequence that uploads the
 * image and then creates the page. The two API calls are I/O: their
 * answers are parameters and the requests made are recorded in `requests`.
 */
module AddPage {
  import opened Wrappers
  import opened Text
  import opened Numbers

  datatype PageFields = PageFields(title: string, content: string, categoryId: string)

  /** The picked file as the browser describes it. */
  datatype FileInfo = FileInfo(mimeType: string, size: int)

  datatype Field = Title | Content | CategoryId | Image

  const MaxImageSize := 5 * 1024 * 1024

  const NotAnImage := "Пожалуйста, выберите изображение"
  const TooLarge := "Размер файла не должен превышать 5MB"
  const TitleRequired := "Название обязательно"
  const TitleTooShort := "Название должно содержать минимум 3 символа"
  const ContentRequired := "Содержание обязательно"
  const ContentTooShort := "Содержание должно содержать минимум 10 символов"
  const CategoryRequired := "Выберите категорию"
  const ImageRequired := "Загрузите изображение"
  const CreateFailed := "Ошибка при создании страницы"
  const Created := "Страница успешно создана!"

  /** The picker's checks: the type must start with `image/`, then the size must be at most 5 MiB. */
  function ImageError(file: FileInfo): (r: Option<string>)
    ensures r.None? <==> StartsWith(file.mimeType, "image/") && file.size <= MaxImageSize
    ensures !StartsWith(file.mimeType, "image/") ==> r == Some(NotAnImage)
  {
    if !StartsWith(file.mimeType, "image/") then Some(NotAnImage)
    else if file.size > MaxImageSize then Some(TooLarge)
    else None
  }

  /** The message for one field, `None` when it passes. */
  function FieldError(form: PageFields, image: Option<FileInfo>, f: Field): Option<string> {
    match f
    case Title =>
      if IsBlank(form.title) then Some(TitleRequired)
      else if |Trim(form.title)| < 3 then Some(TitleTooShort) else None
    case Content =>
      if IsBlank(form.content) then Some(ContentRequired)
      else if |Trim(form.content)| < 10 then Some(ContentTooShort) else None
    case CategoryId =>
      if form.categoryId == [] then Some(CategoryRequired) else None
    case Image =>
      if image.None? then Some(ImageRequired) else None
  }

  /** What the validator demands, field by field. */
  predicate Acceptable(form: PageFields, image: Option<FileInfo>) {
    && |Trim(form.title)| >= 3
    && |Trim(form.content)| >= 10
    && form.categoryId != []
    && image.Some?
  }

  /** No field has an error exactly when the form is acceptable; lengths are measured after trimming. */
  lemma NoErrorsIffAcceptable(form: PageFields, image: Option<FileInfo>)
    ensures (forall f :: FieldError(form, image, f).None?) <==> Acceptable(form, image)
  {
    if !Acceptable(form, image) {
      if |Trim(form.title)| < 3 {
        assert FieldError(form, image, Title).Some?;
      } else if |Trim(form.content)| < 10 {
        assert FieldError(form, image, Content).Some?;
      } else if form.categoryId == [] {
        assert FieldError(form, image, CategoryId).Some?;
      } else {
        assert FieldError(form, image, Image).Some?;
      }
    }
  }

  /** A map holding each field's message has no key exactly when the form is acceptable. */
  lemma EmptyErrorsIffAcceptable(errors: map<Field, string>, form: PageFields, image: Option<FileInfo>)
    requires forall f :: Lookup(errors, f) == FieldError(form, image, f)
    ensures |errors.Keys| == 0 <==> Acceptable(form, image)
  {
    NoErrorsIffAcceptable(form, image);
    if |errors.Keys| == 0 {
      assert errors.Keys == {};
      forall f ensures FieldError(form, image, f).None? {
        assert f !in errors;
      }
    } else {
      var f :| f in errors;
      assert FieldError(form, image, f).Some?;
    }
  }

  /** `{ title, content, categoryId, imagePath }`; a `categoryId` that is not a number is `None` (`NaN`). */
  datatype PagePayload = PagePayload(title: string, content: string, categoryId: Option<int>, imagePath: string)

  /** The page created once the upload has answered with `imagePath`. */
  function Payload(form: PageFields, imagePath: string): (r: PagePayload)
    ensures r.title == Trim(form.title) && r.content == Trim(form.content)
    ensures r.categoryId == ParseInt(form.categoryId) && r.imagePath == imagePath
  {
    PagePayload(Trim(form.title), Trim(form.content), ParseInt(form.categoryId), imagePath)
  }

  /** A category picked from the list (its id as a decimal string) reaches the server as that integer. */
  lemma PayloadCategory(form: PageFields, id: nat, imagePath: string)
    requires form.categoryId == NatToString(id)
    ensures Payload(form, imagePath).categoryId == Some(id)
  {
    ParseIntOfNatToString(id, "");
    assert NatToString(id) + "" == NatToString(id);
  }

  /** An accepted form sends a title of at least 3 and content of at least 10 characters, neither with surrounding white space. */
  lemma PayloadTrimmed(form: PageFields, image: Option<FileInfo>, imagePath: string)
    requires Acceptable(form, image)
    ensures var p := Payload(form, imagePath);
      |p.title| >= 3 && |p.content| >= 10 && Trim(p.title) == p.title && Trim(p.content) == p.content
  {
    TrimIdempotent(form.title);
    TrimIdempotent(form.content);
  }

  /** A request the editor sends. */
  datatype Request = UploadImage(file: FileInfo) | CreatePage(payload: PagePayload)

  class Editor {
    var form: PageFields
    var imageFile: Option<FileInfo>
    var imagePreview: Option<string>
    var error: string
    var validationErrors: map<Field, string>
    var loading: bool
    var requests: seq<Request>
    /** The message the list page is opened with after a successful create. */
    var navigated: Option<string>

    constructor ()
      ensures form == PageFields("", "", "") && imageFile.None? && imagePreview.None?
      ensures error == "" && validationErrors == map[] && !loading && requests == [] && navigated.None?
    {
      form := PageFields("", "", "");
      imageFile := None;
      imagePreview := None;
      error := "";
      validationErrors := map[];
      loading := false;
      requests := [];
      navigated := None;
    }

    /** `handleChange`: the field takes the value, and a set error on that field is cleared. */
    method Change(f: Field, value: string)
      requires f != Image
      modifies this
      ensures f == Title ==> form == old(form).(title := value)
      ensures f == Content ==> form == old(form).(content := value)
      ensures f == CategoryId ==> form == old(form).(categoryId := value)
      ensures validationErrors ==
        if f in old(validationErrors) && old(validationErrors)[f] != [] then old(validationErrors)[f := ""]
        else old(validationErrors)
      ensures imageFile == old(imageFile) && imagePreview == old(imagePreview) && error == old(error)
      ensures requests == old(requests) && loading == old(loading) && navigated == old(navigated)
    {
      match f {
        case Title => form := form.(title := value);
        case Content => form := form.(content := value);
        case CategoryId => form := form.(categoryId := value);
      }
      if f in validationErrors && validationErrors[f] != [] {
        validationErrors := validationErrors[f := ""];
      }
    }

    /**
     * `handleImageChange`: no file changes nothing; a rejected file sets the
     * error and keeps the current selection; an accepted file is selected
     * with its preview (read from the file) and leaves the error as it was.
     */
    method PickImage(file: Option<FileInfo>, preview: string)
      modifies this
      ensures file.None? ==> imageFile == old(imageFile) && imagePreview == old(imagePreview) && error == old(error)
      ensures file.Some? && ImageError(file.value).Some? ==>
        imageFile == old(imageFile) && imagePreview == old(imagePreview) && error == ImageError(file.value).value
      ensures file.Some? && ImageError(file.value).None? ==>
        imageFile == file && imagePreview == Some(preview) && error == old(error)
      ensures form == old(form) && validationErrors == old(validationErrors)
      ensures requests == old(requests) && loading == old(loading) && navigated == old(navigated)
    {
      if file.Some? {
        var f := file.value;
        if !StartsWith(f.mimeType, "image/") {
          error := NotAnImage;
          return;
        }
        if f.size > MaxImageSize {
          error := TooLarge;
          return;
        }
        imageFile := file;
        imagePreview := Some(preview);
      }
    }

    /** `removeImage`. */
    method RemoveImage()
      modifies this
      ensures imageFile.None? && imagePreview.None?
      ensures form == old(form) && error == old(error) && validationErrors == old(validationErrors)
      ensures requests == old(requests) && loading == old(loading) && navigated == old(navigated)
    {
      imageFile := None;
      imagePreview := None;
    }

    /** `validateForm`: sets `validationErrors` to one message per failing field and reports whether there were none. */
    method Validate() returns (valid: bool)
      modifies this`validationErrors
      ensures forall f :: Lookup(validationErrors, f) == FieldError(form, imageFile, f)
      ensures valid <==> Acceptable(form, imageFile)
      ensures form == old(form) && imageFile == old(imageFile) && imagePreview == old(imagePreview)
      ensures error == old(error) && requests == old(requests) && loading == old(loading) && navigated == old(navigated)
    {
      var errors: map<Field, string> := map[];
      if IsBlank(form.title) {
        errors := errors[Title := TitleRequired];
      } else if |Trim(form.title)| < 3 {
        errors := errors[Title := TitleTooShort];
      }
      var e1 := errors;
      if IsBlank(form.content) {
        errors := errors[Content := ContentRequired];
      } else if |Trim(form.content)| < 10 {
        errors := errors[Content := ContentTooShort];
      }
      var e2 := errors;
      if form.categoryId == [] {
        errors := errors[CategoryId := CategoryRequired];
      }
      var e3 := errors;
      if imageFile.None? {
        errors := errors[Image := ImageRequired];
      }
      assert Lookup(e1, Title) == FieldError(form, imageFile, Title) && e1.Keys <= {Title};
      assert Lookup(e2, Title) == FieldError(form, imageFile, Title);
      assert Lookup(e2, Content) == FieldError(form, imageFile, Content) && e2.Keys <= {Title, Content};
      assert Lookup(e3, Title) == FieldError(form, imageFile, Title) && Lookup(e3, Content) == FieldError(form, imageFile, Content);
      assert Lookup(e3, CategoryId) == FieldError(form, imageFile, CategoryId) && e3.Keys <= {Title, Content, CategoryId};
      forall f ensures Lookup(errors, f) == FieldError(form, imageFile, f) {
        match f
        case Title =>
        case Content =>
        case CategoryId =>
        case Image =>
      }
      validationErrors := errors;
      valid := |errors.Keys| == 0;
      EmptyErrorsIffAcceptable(errors, form, imageFile);
    }

    /**
     * `handleSubmit`: an invalid form sends nothing. Otherwise the image is
     * uploaded first; only when that succeeds is the page created, with the
     * returned `imagePath`. A failure of either call sets the server's
     * message or the default; success opens the list with a message.
     * `loading` is reset either way.
     */
    method Submit(upload: Reply<string>, create: Reply<()>)
      modifies this`validationErrors, this`loading, this`error, this`requests, this`navigated
      ensures forall f :: Lookup(validationErrors, f) == FieldError(form, imageFile, f)
      ensures form == old(form) && imageFile == old(imageFile) && imagePreview == old(imagePreview)
      ensures !Acceptable(old(form), old(imageFile)) ==>
        requests == old(requests) && error == old(error) && navigated == old(navigated) && loading == old(loading)
      ensures Acceptable(old(form), old(imageFile)) ==> !loading
      ensures Acceptable(old(form), old(imageFile)) && upload.Err? ==>
        && requests == old(requests) + [UploadImage(old(imageFile).value)]
        && error == OrElse(upload.message, CreateFailed) && navigated == old(navigated)
      ensures Acceptable(old(form), old(imageFile)) && upload.Ok? ==>
        && requests == old(requests) + [UploadImage(old(imageFile).value), CreatePage(Payload(old(form), upload.value))]
        && (create.Err? ==> error == OrElse(create.message, CreateFailed) && navigated == old(navigated))
        && (create.Ok? ==> error == "" && navigated == Some(Created))
    {
      ghost var accepted := Acceptable(form, imageFile);
      var valid := Validate();
      assert valid == accepted;
      if valid {
        Send(upload, create);
      }
    }

    /** The requests of `handleSubmit` once the form has passed validation. */
    method Send(upload: Reply<string>, create: Reply<()>)
      requires imageFile.Some?
      modifies this`loading, this`error, this`requests, this`navigated
      ensures !loading
      ensures upload.Err? ==>
        && requests == old(requests) + [UploadImage(imageFile.value)]
        && error == OrElse(upload.message, CreateFailed) && navigated == old(navigated)
      ensures upload.Ok? ==>
        && requests == old(requests) + [UploadImage(imageFile.value), CreatePage(Payload(form, upload.value))]
        && (create.Err? ==> error == OrElse(create.message, CreateFailed) && navigated == old(navigated))
        && (create.Ok? ==> error == "" && navigated == Some(Created))
    {
      loading := true;
      error := "";
      var file := imageFile.value;
      requests := requests + [UploadImage(file)];
      match upload {
        case Err(m) =>
          error := OrElse(m, CreateFailed);
        case Ok(imagePath) =>
          var pageData := Payload(form, imagePath);
          ghost var sent := requests;
          requests := requests + [CreatePage(pageData)];
          assert requests == old(requests) + [UploadImage(file), CreatePage(pageData)] by {
            assert sent == old(requests) + [UploadImage(file)];
          }
          match create {
            case Err(m) =>
              error := OrElse(m, CreateFailed);
            case Ok(_) =>
              navigated := Some(Created);
          }
      }
      loading := false;
    }
  }
}
