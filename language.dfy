/**
 * The interface language (frontend/src/contexts/LanguageContext.jsx): the
 * two translation tables, the lookup `t` with its fallback to the key, the
 * default language and its persistence in browser storage. Each table is
 * kept as its rows in source order, one constant per commented section.
 */
module Language {
  import opened Wrappers
  import opened Text

  /** Rows of a translation table: key and text. */
  type Rows = seq<(string, string)>

  const RuNavigation: Rows := [
    ("home", "Главная"),
    ("pages", "Страницы"),
    ("admin", "Админ"),
    ("login", "Войти"),
    ("register", "Регистрация"),
    ("logout", "Выйти")]

  const RuCommon: Rows := [
    ("loading", "Загрузка..."),
    ("error", "Ошибка"),
    ("success", "Успешно"),
    ("cancel", "Отмена"),
    ("save", "Сохранить"),
    ("delete", "Удалить"),
    ("edit", "Редактировать"),
    ("back", "Назад"),
    ("next", "Далее"),
    ("previous", "Назад")]

  const RuPages: Rows := [
    ("pageTitle", "80 Страниц Победы"),
    ("pageSubtitle", "Изучайте историю Великой Отечественной Войны"),
    ("noPages", "Страницы не найдены"),
    ("pageNotFound", "Страница не найдена"),
    ("backToList", "Вернуться к списку"),
    ("author", "Автор"),
    ("published", "Опубликовано"),
    ("comments", "Комментарии"),
    ("comment", "Комментарий"),
    ("reply", "Ответить"),
    ("send", "Отправить"),
    ("sending", "Отправка..."),
    ("writeComment", "Напишите комментарий..."),
    ("writeReply", "Напишите ответ..."),
    ("noComments", "Пока нет комментариев. Будьте первым!")]

  const RuCategories: Rows := [
    ("city", "Город"),
    ("hero", "Герой"),
    ("event", "Событие"),
    ("letter", "Письмо"),
    ("monument", "Памятник"),
    ("artifact", "Артефакт")]

  const RuAuth: Rows := [
    ("email", "Email"),
    ("password", "Пароль"),
    ("name", "Имя"),
    ("confirmPassword", "Подтвердите пароль"),
    ("alreadyHaveAccount", "Уже есть аккаунт?"),
    ("dontHaveAccount", "Нет аккаунта?")]

  const RuFooter: Rows := [
    ("openSource", "Проект распространяется с открытым исходным кодом.")]

  const RuTheme: Rows := [
    ("lightTheme", "Светлая тема"),
    ("darkTheme", "Темная тема")]

  const RuLanguage: Rows := [
    ("language", "Язык"),
    ("russian", "Русский"),
    ("english", "English"),
    ("characters", "символов")]

  const RuAdmin: Rows := [
    ("panel", "Панель"),
    ("managePagesAndComments", "Управление страницами и комментариями")]

  const EnNavigation: Rows := [
    ("home", "Home"),
    ("pages", "Pages"),
    ("admin", "Admin"),
    ("login", "Login"),
    ("register", "Register"),
    ("logout", "Logout")]

  const EnCommon: Rows := [
    ("loading", "Loading..."),
    ("error", "Error"),
    ("success", "Success"),
    ("cancel", "Cancel"),
    ("save", "Save"),
    ("delete", "Delete"),
    ("edit", "Edit"),
    ("back", "Back"),
    ("next", "Next"),
    ("previous", "Previous")]

  const EnPages: Rows := [
    ("pageTitle", "80 Pages of Victory"),
    ("pageSubtitle", "Learn the history of the Great Patriotic War"),
    ("noPages", "No pages found"),
    ("pageNotFound", "Page not found"),
    ("backToList", "Back to list"),
    ("author", "Author"),
    ("published", "Published"),
    ("comments", "Comments"),
    ("comment", "Comment"),
    ("reply", "Reply"),
    ("send", "Send"),
    ("sending", "Sending..."),
    ("writeComment", "Write a comment..."),
    ("writeReply", "Write a reply..."),
    ("noComments", "No comments yet. Be the first!")]

  const EnCategories: Rows := [
    ("city", "City"),
    ("hero", "Hero"),
    ("event", "Event"),
    ("letter", "Letter"),
    ("monument", "Monument"),
    ("artifact", "Artifact")]

  const EnAuth: Rows := [
    ("email", "Email"),
    ("password", "Password"),
    ("name", "Name"),
    ("confirmPassword", "Confirm Password"),
    ("alreadyHaveAccount", "Already have an account?"),
    ("dontHaveAccount", "Don't have an account?")]

  const EnFooter: Rows := [
    ("openSource", "This project is distributed with open source code.")]

  const EnTheme: Rows := [
    ("lightTheme", "Light theme"),
    ("darkTheme", "Dark theme")]

  const EnLanguage: Rows := [
    ("language", "Language"),
    ("russian", "Русский"),
    ("english", "English"),
    ("characters", "characters")]

  const EnAdmin: Rows := [
    ("panel", "Panel"),
    ("managePagesAndComments", "Manage pages and comments")]

  /** `translations.ru`. */
  const Ru: Rows := RuNavigation + RuCommon + RuPages + RuCategories + RuAuth + RuFooter + RuTheme + RuLanguage + RuAdmin

  /** `translations.en`. */
  const En: Rows := EnNavigation + EnCommon + EnPages + EnCategories + EnAuth + EnFooter + EnTheme + EnLanguage + EnAdmin

  /** The keys of some rows, in order. */
  function KeysOf(rows: Rows): (r: seq<string>)
    ensures |r| == |rows| && forall i :: 0 <= i < |rows| ==> r[i] == rows[i].0
  {
    seq(|rows|, i requires 0 <= i < |rows| => rows[i].0)
  }

  lemma KeysOfAppend(a: Rows, b: Rows)
    ensures KeysOf(a + b) == KeysOf(a) + KeysOf(b)
  {
  }

  /** Both tables list the same keys, in the same order, section by section. */
  lemma SameKeys()
    ensures KeysOf(Ru) == KeysOf(En)
    ensures forall k :: k in KeysOf(Ru) <==> k in KeysOf(En)
  {
    assert KeysOf(RuNavigation) == KeysOf(EnNavigation);
    assert KeysOf(RuCommon) == KeysOf(EnCommon);
    assert KeysOf(RuPages) == KeysOf(EnPages);
    assert KeysOf(RuCategories) == KeysOf(EnCategories);
    assert KeysOf(RuAuth) == KeysOf(EnAuth);
    assert KeysOf(RuFooter) == KeysOf(EnFooter);
    assert KeysOf(RuTheme) == KeysOf(EnTheme);
    assert KeysOf(RuLanguage) == KeysOf(EnLanguage);
    assert KeysOf(RuAdmin) == KeysOf(EnAdmin);
    KeysOfAppend(RuNavigation, RuCommon);
    KeysOfAppend(EnNavigation, EnCommon);
    KeysOfAppend(RuNavigation + RuCommon, RuPages);
    KeysOfAppend(EnNavigation + EnCommon, EnPages);
    KeysOfAppend(RuNavigation + RuCommon + RuPages, RuCategories);
    KeysOfAppend(EnNavigation + EnCommon + EnPages, EnCategories);
    KeysOfAppend(RuNavigation + RuCommon + RuPages + RuCategories, RuAuth);
    KeysOfAppend(EnNavigation + EnCommon + EnPages + EnCategories, EnAuth);
    KeysOfAppend(RuNavigation + RuCommon + RuPages + RuCategories + RuAuth, RuFooter);
    KeysOfAppend(EnNavigation + EnCommon + EnPages + EnCategories + EnAuth, EnFooter);
    KeysOfAppend(RuNavigation + RuCommon + RuPages + RuCategories + RuAuth + RuFooter, RuTheme);
    KeysOfAppend(EnNavigation + EnCommon + EnPages + EnCategories + EnAuth + EnFooter, EnTheme);
    KeysOfAppend(RuNavigation + RuCommon + RuPages + RuCategories + RuAuth + RuFooter + RuTheme, RuLanguage);
    KeysOfAppend(EnNavigation + EnCommon + EnPages + EnCategories + EnAuth + EnFooter + EnTheme, EnLanguage);
    KeysOfAppend(RuNavigation + RuCommon + RuPages + RuCategories + RuAuth + RuFooter + RuTheme + RuLanguage, RuAdmin);
    KeysOfAppend(EnNavigation + EnCommon + EnPages + EnCategories + EnAuth + EnFooter + EnTheme + EnLanguage, EnAdmin);
  }

  /** `table[key]`: the text of the last row with that key (a later property overrides an earlier one). */
  function Entry(rows: Rows, key: string): (r: Option<string>)
    ensures r.Some? <==> key in KeysOf(rows)
    ensures r.Some? ==> exists i :: 0 <= i < |rows| && rows[i] == (key, r.value)
                                    && forall j :: i < j < |rows| ==> rows[j].0 != key
  {
    if rows == [] then None
    else if rows[|rows| - 1].0 == key then Some(rows[|rows| - 1].1)
    else
      var r := Entry(rows[..|rows| - 1], key);
      assert KeysOf(rows) == KeysOf(rows[..|rows| - 1]) + [rows[|rows| - 1].0];
      r
  }

  /** `translations[language]`: `None` (undefined) for a language other than `ru` and `en`. */
  function Table(language: string): Option<Rows> {
    if language == "ru" then Some(Ru) else if language == "en" then Some(En) else None
  }

  /** `t(key)`: a text, or a `TypeError` when the language has no table. */
  datatype Translated = Text(text: string) | Crash

  function T(language: string, key: string): (r: Translated)
    ensures Table(language).None? <==> r.Crash?
    ensures Table(language).Some? ==>
      var e := Entry(Table(language).value, key);
      r == Text(if e.Some? && e.value != [] then e.value else key)
  {
    match Table(language)
    case None => Crash
    case Some(rows) => Text(OrElse(Entry(rows, key).GetOr(""), key))
  }

  /** A key neither table has comes back unchanged, in either language. */
  lemma UnknownKeyIsItself(key: string)
    requires key !in KeysOf(Ru)
    ensures T("ru", key) == Text(key) && T("en", key) == Text(key)
  {
    SameKeys();
  }

  /** `deleteError` is in neither table, so `t('deleteError')` shows the key itself. */
  lemma DeleteErrorUntranslated()
    ensures T("ru", "deleteError") == Text("deleteError") && T("en", "deleteError") == Text("deleteError")
  {
    assert "deleteError" !in KeysOf(RuNavigation);
    assert "deleteError" !in KeysOf(RuCommon);
    assert "deleteError" !in KeysOf(RuPages);
    assert "deleteError" !in KeysOf(RuCategories);
    assert "deleteError" !in KeysOf(RuAuth);
    assert "deleteError" !in KeysOf(RuFooter);
    assert "deleteError" !in KeysOf(RuTheme);
    assert "deleteError" !in KeysOf(RuLanguage);
    assert "deleteError" !in KeysOf(RuAdmin);
    KeysOfAppend(RuNavigation, RuCommon);
    KeysOfAppend(RuNavigation + RuCommon, RuPages);
    KeysOfAppend(RuNavigation + RuCommon + RuPages, RuCategories);
    KeysOfAppend(RuNavigation + RuCommon + RuPages + RuCategories, RuAuth);
    KeysOfAppend(RuNavigation + RuCommon + RuPages + RuCategories + RuAuth, RuFooter);
    KeysOfAppend(RuNavigation + RuCommon + RuPages + RuCategories + RuAuth + RuFooter, RuTheme);
    KeysOfAppend(RuNavigation + RuCommon + RuPages + RuCategories + RuAuth + RuFooter + RuTheme, RuLanguage);
    KeysOfAppend(RuNavigation + RuCommon + RuPages + RuCategories + RuAuth + RuFooter + RuTheme + RuLanguage, RuAdmin);
    UnknownKeyIsItself("deleteError");
  }

  /** The saved language, or `ru` when nothing (or an empty string) is saved. */
  function InitialLanguage(storage: map<string, string>): (r: string)
    ensures "language" !in storage || storage["language"] == [] ==> r == "ru"
    ensures "language" in storage && storage["language"] != [] ==> r == storage["language"]
  {
    OrElse(Lookup(storage, "language").GetOr(""), "ru")
  }

  class LanguageProvider {
    var language: string
    var storage: map<string, string>

    /** Mounting: the language is read from storage, and the effect writes it back. */
    constructor (saved: map<string, string>)
      ensures language == InitialLanguage(saved)
      ensures storage == saved["language" := InitialLanguage(saved)]
    {
      language := InitialLanguage(saved);
      storage := saved["language" := InitialLanguage(saved)];
    }

    /** `changeLanguage`, followed by the effect that stores the new language. */
    method ChangeLanguage(lang: string)
      modifies this
      ensures language == lang && storage == old(storage)["language" := lang]
    {
      language := lang;
      storage := storage["language" := language];
    }
  }
}
